/** What a number in a text is worth, and how it is printed again. */
module JsonNumber {
  import opened CText
  import opened JsonText
  import opened JsonPrint
  import opened JsonRoundTrip

  // ----- place value -----

  /** What a decimal digit stands for. */
  function Face(c: char): nat {
    match c
    case '1' => 1
    case '2' => 2
    case '3' => 3
    case '4' => 4
    case '5' => 5
    case '6' => 6
    case '7' => 7
    case '8' => 8
    case '9' => 9
    case _ => 0
  }

  predicate IsNumeral(c: char) {
    c == '0' || c == '1' || c == '2' || c == '3' || c == '4' || c == '5' || c == '6' || c == '7' || c == '8' || c == '9'
  }

  predicate AllNumerals(s: string) { forall i | 0 <= i < |s| :: IsNumeral(s[i]) }

  /** The value of a digit string: each digit counts ten times the one to its right. */
  function PlaceValue(s: string): nat {
    if s == [] then 0 else 10 * PlaceValue(s[..|s| - 1]) + Face(s[|s| - 1])
  }

  lemma NumeralIsDigit(c: char)
    ensures IsNumeral(c) <==> IsDigit(c)
    ensures IsNumeral(c) ==> Face(c) == DigitValue(c)
  {
  }

  lemma NumeralsAreDigits(s: string)
    ensures AllNumerals(s) <==> forall i | 0 <= i < |s| :: IsDigit(s[i])
  {
    hide IsNumeral, IsDigit;
    forall i | 0 <= i < |s|
      ensures IsNumeral(s[i]) <==> IsDigit(s[i])
    {
      NumeralIsDigit(s[i]);
    }
  }

  lemma PlaceSnoc(a: string, c: char)
    ensures PlaceValue(a + [c]) == 10 * PlaceValue(a) + Face(c)
  {
    hide Face;
    assert (a + [c])[..|a|] == a;
  }

  /** The accumulating loop computes the place value of everything read so far. */
  lemma {:induction false} DigitsPlace(a: string, b: string, rest: string)
    requires AllNumerals(b) && !IsDigit(Head(rest))
    ensures Digits(PlaceValue(a), b + rest) == (PlaceValue(a + b), rest)
    decreases |b|
  {
    hide PlaceValue, Face, IsNumeral, DigitValue, IsDigit;
    if b == [] {
      assert b + rest == rest && a + b == a;
    } else {
      NumeralIsDigit(b[0]);
      PlaceSnoc(a, b[0]);
      assert (b + rest)[1..] == b[1..] + rest && (b + rest)[0] == b[0];
      assert a + [b[0]] + b[1..] == a + b;
      DigitsPlace(a + [b[0]], b[1..], rest);
    }
  }

  lemma {:induction false} NatTextValue(n: nat)
    ensures AllNumerals(NatText(n)) && PlaceValue(NatText(n)) == n
  {
    hide AllNumerals;
    NumeralsAreDigits(NatText(n));
    if n < 10 {
      NumeralIsDigit(DigitChar(n));
      PlaceSnoc([], DigitChar(n));
      assert [] + [DigitChar(n)] == [DigitChar(n)];
    } else {
      hide PlaceValue, Face, IsNumeral;
      NatTextValue(n / 10);
      NumeralIsDigit(DigitChar(n % 10));
      PlaceSnoc(NatText(n / 10), DigitChar(n % 10));
    }
  }

  // ----- the value of a number -----

  /** An exponent: none, or a letter, a sign and digits. */
  datatype Power = NoPower | Power(letter: char, sign: string, digits: string)

  predicate PowerOk(p: Power) {
    p.Power? ==> (p.letter == 'e' || p.letter == 'E') && (p.sign == "" || p.sign == "+" || p.sign == "-")
                 && AllNumerals(p.digits)
  }

  function PowerText(p: Power): string { if p.NoPower? then "" else [p.letter] + (p.sign + p.digits) }

  function PowerValue(p: Power): int {
    if p.NoPower? then 0 else if p.sign == "-" then 0 - PlaceValue(p.digits) else PlaceValue(p.digits)
  }

  function PointText(d: string): string { if d == [] then "" else "." + d }

  /** Nothing in `rest` would be read as part of the number in front of it. */
  predicate Ends(d: string, p: Power, rest: string) {
    && !IsDigit(Head(rest))
    && (p.NoPower? ==> Head(rest) != 'e' && Head(rest) != 'E')
    && (p.NoPower? && d == [] ==> !(Head(rest) == '.' && IsDigit(Head(rest[1..]))))
    && (p.Power? && p.sign == "" && p.digits == [] ==> Head(rest) != '+' && Head(rest) != '-')
  }

  /** A whole part: none, or decimal digits that may have one zero in front. */
  datatype Units = NoUnits | Units(zero: bool, w: nat)

  predicate UnitsOk(u: Units) { u.Units? && u.zero ==> u.w > 0 }

  function UnitsText(u: Units): string {
    if u.NoUnits? then "" else (if u.zero then "0" else "") + NatText(u.w)
  }

  function UnitsDigits(u: Units): string { if u.NoUnits? then "" else NatText(u.w) }

  lemma UnitsRead(u: Units, rest: string)
    requires UnitsOk(u) && !IsDigit(Head(rest))
    ensures Whole(UnitsText(u) + rest) == (PlaceValue(UnitsDigits(u)), rest)
  {
    hide NatText, PlaceValue;
    if u.NoUnits? {
      assert "" + rest == rest;
      NothingValue();
      NoWhole(rest);
    } else {
      NatTextValue(u.w);
      WholeRead(if u.zero then "0" else "", u.w, rest);
      Assoc3(if u.zero then "0" else "", NatText(u.w), rest);
    }
  }

  lemma NoWhole(rest: string)
    requires !IsDigit(Head(rest))
    ensures Whole(rest) == (0, rest)
  {
  }

  lemma WholeRead(zero: string, w: nat, rest: string)
    requires (zero == "" || (zero == "0" && w > 0)) && !IsDigit(Head(rest))
    ensures Whole(zero + (NatText(w) + rest)) == (w, rest)
  {
    var s := NatText(w) + rest;
    WholeOfNatText(w, rest);
    if zero == "" {
      assert zero + s == s;
    } else {
      assert (zero + s)[1..] == s;
      assert s[0] == NatText(w)[0] && NatText(w)[0] != '0';
    }
  }

  lemma PointRead(w: string, d: string, rest: string)
    requires AllNumerals(d) && !IsDigit(Head(rest)) && (d == [] ==> !(Head(rest) == '.' && IsDigit(Head(rest[1..]))))
    ensures Fraction(PlaceValue(w), PointText(d) + rest) == (PlaceValue(w + d), rest)
  {
    hide Digits, PlaceValue, IsNumeral;
    var s := PointText(d) + rest;
    if d == [] {
      assert s == rest && w + d == w;
    } else {
      NumeralIsDigit(d[0]);
      assert s[1..] == d + rest;
      DigitsPlace(w, d, rest);
    }
  }

  lemma Drops(letter: char, sign: string, y: string)
    requires |sign| <= 1
    ensures var s := [letter] + (sign + y);
            && s != [] && s[0] == letter && s[1..] == sign + y
            && (sign == "" ==> s[1..] == y) && (sign != "" ==> |s| > 1 && s[1] == sign[0] && s[2..] == y)
  {
  }

  /** The letter and the sign in front of the digits of an exponent. */
  lemma ExponentOf(letter: char, sign: string, y: string)
    requires (letter == 'e' || letter == 'E') && (sign == "" || sign == "+" || sign == "-")
    requires sign == "" ==> Head(y) != '+' && Head(y) != '-'
    ensures var (x, r) := Digits(0, y);
            Exponent([letter] + (sign + y)) == (if sign == "-" then 0 - x else x, r)
  {
    hide Digits, Exponent;
    var s := [letter] + (sign + y);
    Drops(letter, sign, y);
    if sign == "" { UnsignedExponent(s, y); } else { SignedExponent(s, y); }
  }

  lemma UnsignedExponent(s: string, y: string)
    requires (Head(s) == 'e' || Head(s) == 'E') && s[1..] == y && Head(y) != '+' && Head(y) != '-'
    ensures Exponent(s) == Digits(0, y)
  {
    hide Digits;
  }

  lemma SignedExponent(s: string, y: string)
    requires (Head(s) == 'e' || Head(s) == 'E') && |s| > 1 && (s[1] == '+' || s[1] == '-') && s[2..] == y
    ensures Exponent(s) == (if s[1] == '-' then 0 - Digits(0, y).0 else Digits(0, y).0, Digits(0, y).1)
  {
    hide Digits;
    assert Head(s[1..]) == s[1];
  }

  lemma PowerRead(p: Power, rest: string)
    requires PowerOk(p) && !IsDigit(Head(rest)) && (p.NoPower? ==> Head(rest) != 'e' && Head(rest) != 'E')
    requires p.Power? && p.sign == "" && p.digits == [] ==> Head(rest) != '+' && Head(rest) != '-'
    ensures Exponent(PowerText(p) + rest) == (PowerValue(p), rest)
  {
    hide Digits, PlaceValue, IsNumeral, IsDigit;
    if p.NoPower? {
      assert PowerText(p) + rest == rest;
    } else {
      hide Exponent;
      var y := p.digits + rest;
      if p.digits == [] {
        assert y == rest;
      } else {
        NumeralIsDigit(p.digits[0]);
        assert y[0] == p.digits[0];
        NoSign(y[0]);
      }
      Assoc4([p.letter], p.sign, p.digits, rest);
      Assoc3([p.letter], p.sign, p.digits);
      ExponentOf(p.letter, p.sign, y);
      NothingValue();
      assert [] + p.digits == p.digits;
      DigitsPlace([], p.digits, rest);
    }
  }

  lemma NoSign(c: char)
    ensures IsDigit(c) ==> c != '+' && c != '-'
  {
  }

  lemma NothingValue()
    ensures PlaceValue([]) == 0
  {
  }

  /** The digits in front of the point and behind it, as one number, are the mantissa. */
  function Mantissa(minus: bool, u: Units, d: string): int {
    if minus then 0 - PlaceValue(UnitsDigits(u) + d) else PlaceValue(UnitsDigits(u) + d)
  }

  function NumberSource(minus: bool, u: Units, d: string, p: Power): string {
    (if minus then "-" else "") + (UnitsText(u) + (PointText(d) + PowerText(p)))
  }

  /**
    The value of every number: an optional sign, a whole part that may have one zero in front, a
    fraction or none, and an exponent with either letter and any sign or none. The whole part and
    the digits of the exponent may be missing.
  */
  lemma NumberValue(minus: bool, u: Units, d: string, p: Power, rest: string)
    requires UnitsOk(u) && AllNumerals(d) && PowerOk(p) && Ends(d, p, rest)
    requires u.NoUnits? && !minus ==> Head(PointText(d) + (PowerText(p) + rest)) != '-'
    ensures ParseNumber(NumberSource(minus, u, d, p) + rest) ==
            (Number(Mantissa(minus, u, d), PowerValue(p) - |d|), rest)
  {
    hide Sign, Whole, Fraction, Exponent, ParseNumber, PlaceValue, PowerValue, UnitsText, UnitsDigits;
    hide PointText, PowerText, PowerOk, AllNumerals;
    var sign := if minus then "-" else "";
    var c := PowerText(p) + rest;
    var b := PointText(d) + c;
    var a := UnitsText(u) + b;
    Grouped(sign, UnitsText(u), PointText(d), PowerText(p), rest);
    PowerHead(p, rest);
    PointHead(d, c);
    UnitsHead(u, b);
    SignRead(minus, a);
    UnitsRead(u, b);
    PointRead(UnitsDigits(u), d, c);
    PowerRead(p, rest);
    NumberBy(sign + a, if minus then -1 else 1, a, PlaceValue(UnitsDigits(u)), b, PlaceValue(UnitsDigits(u) + d), c,
             PowerValue(p), rest);
  }

  lemma SignRead(minus: bool, a: string)
    requires !minus ==> Head(a) != '-'
    ensures Sign((if minus then "-" else "") + a) == (if minus then -1 else 1, a)
  {
    if minus { assert ("-" + a)[1..] == a; } else { assert "" + a == a; }
  }

  lemma NumberBy(s: string, sign: int, a: string, n: int, b: string, m: int, c: string, x: int, d: string)
    requires Sign(s) == (sign, a) && Whole(a) == (n, b) && Fraction(n, b) == (m, c) && Exponent(c) == (x, d)
    ensures ParseNumber(s) == (Number(sign * m, x - Places(b, c)), d)
  {
    hide Sign, Whole, Fraction, Exponent;
  }

  lemma Grouped(a: string, b: string, c: string, d: string, e: string)
    ensures a + (b + (c + d)) + e == a + (b + (c + (d + e)))
  {
    assert a + (b + (c + d)) == a + b + c + d;
    assert a + (b + (c + (d + e))) == a + b + c + d + e;
  }

  lemma PowerHead(p: Power, rest: string)
    requires PowerOk(p)
    ensures var c := PowerText(p) + rest;
            if p.NoPower? then c == rest else Head(c) == p.letter && !IsDigit(Head(c)) && Head(c) != '.'
  {
    if p.NoPower? { assert PowerText(p) + rest == rest; }
  }

  lemma PointHead(d: string, c: string)
    ensures var b := PointText(d) + c; if d == [] then b == c else Head(b) == '.'
    ensures |PointText(d)| == if d == [] then 0 else |d| + 1
  {
    if d == [] { assert PointText(d) + c == c; }
  }

  lemma UnitsHead(u: Units, b: string)
    ensures var a := UnitsText(u) + b; if u.NoUnits? then a == b else a != [] && a[0] != '-'
  {
    var a := UnitsText(u) + b;
    if u.NoUnits? {
      assert a == b;
    } else {
      assert a[0] == if u.zero then '0' else NatText(u.w)[0];
    }
  }

  // ----- printing what was parsed -----

  function Zeros(k: nat): string { Repeat('0', k) }

  lemma {:induction false} PlaceZeros(a: string, k: nat)
    ensures PlaceValue(a + Zeros(k)) == PlaceValue(a) * PowerOfTen(k)
    decreases k
  {
    hide PlaceValue;
    if k == 0 {
      assert a + Zeros(k) == a;
    } else {
      PlaceZeros(a, k - 1);
      assert a + Zeros(k) == a + Zeros(k - 1) + ['0'];
      PlaceSnoc(a + Zeros(k - 1), '0');
      Tenfold(PlaceValue(a), PowerOfTen(k - 1));
    }
  }

  lemma Tenfold(x: int, p: int)
    ensures 10 * (x * p) == x * (10 * p)
  {
  }

  lemma ZerosNumerals(k: nat)
    ensures AllNumerals(Zeros(k))
  {
  }

  lemma {:induction false} NatTextZeros(n: nat, k: nat)
    requires n > 0
    ensures n * PowerOfTen(k) > 0 && NatText(n * PowerOfTen(k)) == NatText(n) + Zeros(k)
    decreases k
  {
    if k == 0 {
      assert NatText(n) + Zeros(k) == NatText(n);
    } else {
      NatTextZeros(n, k - 1);
      var m := n * PowerOfTen(k - 1);
      Tenfold(n, PowerOfTen(k - 1));
      assert NatText(10 * m) == NatText(m) + ['0'];
      assert NatText(n) + Zeros(k) == NatText(n) + Zeros(k - 1) + ['0'];
    }
  }

  lemma Products(a: int, b: int)
    ensures a >= 0 && b >= 0 ==> a * b >= 0
    ensures a <= 0 && b >= 0 ==> a * b <= 0
  {
  }

  /** Quotient and remainder are unique. */
  lemma Quotient(x: int, p: nat, q: int, r: nat)
    requires r < p && x == q * p + r
    ensures x / p == q && x % p == r
  {
    var e := q - x / p;
    assert x == (x / p) * p + x % p;
    assert e * p == q * p - (x / p) * p;
    assert e * p == x % p - r;
    assert (e - 1) * p == e * p - p && (e + 1) * p == e * p + p;
    Products(e - 1, p);
    Products(e + 1, p);
  }

  function Abs(v: int): nat { if v < 0 then -v else v }

  lemma SignedText(v: int)
    ensures IntText(v) == (if v < 0 then "-" else "") + NatText(Abs(v))
  {
    if v >= 0 { assert "" + NatText(v) == NatText(v); }
  }

  /** A 32-bit integer written with any number of zeros behind a point is printed as the integer. */
  lemma PointZerosPrinted(v: int, k: nat, f: Format)
    requires INT_MIN <= v <= INT_MAX
    ensures NumberText(ParseNumber(IntText(v) + ("." + Zeros(k + 1))).0, f) == IntText(v)
  {
    hide ParseNumber, IntText, PowerOfTen;
    PointZerosParsed(v, k);
    Quotient(v * PowerOfTen(k + 1), PowerOfTen(k + 1), v, 0);
    SignedProduct(v, PowerOfTen(k + 1));
    ZeroText(Number(0, 0));
  }

  lemma PointZerosParsed(v: int, k: nat)
    ensures ParseNumber(IntText(v) + ("." + Zeros(k + 1))).0 == Number(v * PowerOfTen(k + 1), 0 - (k + 1))
  {
    hide ParseNumber, PlaceValue, NatText, IntText, PowerOfTen;
    var w, d := Abs(v), Zeros(k + 1);
    NumberValue(v < 0, Units(false, w), d, NoPower, []) by { ZerosNumerals(k + 1); }
    SourceText(v, d, NoPower);
    assert PointText(d) + PowerText(NoPower) == "." + d;
    NatTextValue(w);
    PlaceZeros(NatText(w), k + 1);
    SignedProduct(v, PowerOfTen(k + 1));
  }

  lemma SignedProduct(v: int, p: nat)
    ensures v * p == if v < 0 then 0 - Abs(v) * p else Abs(v) * p
    ensures p > 0 ==> (v * p == 0 <==> v == 0)
  {
  }

  lemma SourceText(v: int, d: string, p: Power)
    ensures NumberSource(v < 0, Units(false, Abs(v)), d, p) + [] == IntText(v) + (PointText(d) + PowerText(p))
  {
    hide NatText, IntText;
    SignedText(v);
    var sign := if v < 0 then "-" else "";
    assert "" + NatText(Abs(v)) == NatText(Abs(v));
    Assoc3(sign, NatText(Abs(v)), PointText(d) + PowerText(p));
  }

  /** The value of an integer with `k` zeros behind it. */
  function Extended(v: int, k: nat): int {
    if v < 0 then 0 - PlaceValue(NatText(Abs(v)) + Zeros(k)) else PlaceValue(NatText(Abs(v)) + Zeros(k))
  }

  /** A 32-bit integer written with a power of ten is printed in full. */
  lemma PowerPrinted(v: int, k: nat, f: Format)
    requires v != 0 && INT_MIN <= Extended(v, k) <= INT_MAX
    ensures NumberText(ParseNumber(IntText(v) + ("e" + NatText(k))).0, f) == IntText(v) + Zeros(k)
  {
    hide ParseNumber, PlaceValue, NatText, IntText;
    PowerParsed(v, k);
    PlaceZeros(NatText(Abs(v)), k);
    NatTextValue(Abs(v));
    SignedProduct(v, PowerOfTen(k));
    IntTextZeros(v, k);
  }

  lemma PowerParsed(v: int, k: nat)
    ensures ParseNumber(IntText(v) + ("e" + NatText(k))).0 == Number(v, k)
  {
    hide ParseNumber, PlaceValue, NatText, IntText;
    var w, p := Abs(v), Power('e', "", NatText(k));
    NatTextValue(k);
    NatTextValue(w);
    assert NatText(w) + [] == NatText(w);
    NumberValue(v < 0, Units(false, w), [], p, []);
    SourceText(v, [], p);
    assert PointText([]) + PowerText(p) == "e" + NatText(k);
  }

  lemma IntTextZeros(v: int, k: nat)
    requires v != 0
    ensures IntText(v * PowerOfTen(k)) == IntText(v) + Zeros(k)
  {
    hide NatText, IntText;
    var sign, w := if v < 0 then "-" else "", Abs(v);
    NatTextZeros(w, k);
    SignedProduct(v, PowerOfTen(k));
    SignedText(v);
    SignedText(v * PowerOfTen(k));
    Assoc3(sign, NatText(w), Zeros(k));
  }

  /** An integer outside the 32-bit range is printed as a floating-point number, one inside as itself. */
  lemma RangePrinted(v: int, f: Format)
    ensures var n := ParseNumber(IntText(v)).0;
            n == Number(v, 0) &&
            NumberText(n, f) == if -2147483648 <= v <= 2147483647 then IntText(v) else f.floatText(n)
  {
    hide ParseNumber, IntText;
    assert IntText(v) + [] == IntText(v);
    NumberRoundTrip(v, []);
    if v == 0 { ZeroText(Number(0, 0)); }
  }

  /** A number with a digit other than zero behind its point is printed as a floating-point number. */
  lemma FractionPrinted(minus: bool, w: nat, d: string, f: Format)
    requires AllNumerals(d) && PlaceValue(d) > 0
    ensures var n := ParseNumber(NumberSource(minus, Units(false, w), d, NoPower)).0;
            n == Number(Mantissa(minus, Units(false, w), d), 0 - |d|) && NumberText(n, f) == f.floatText(n)
  {
    hide ParseNumber, NatText, AllNumerals, NumberText, UnitsText, UnitsDigits, PowerText, PointText, Mantissa;
    assert d != [];
    hide PlaceValue;
    var u := Units(false, w);
    NumberValue(minus, u, d, NoPower, []) by { PointHead(d, PowerText(NoPower) + []); }
    var s := NumberSource(minus, u, d, NoPower);
    assert s + [] == s;
    hide NumberSource;
    FractionLeft(minus, w, d);
    FloatChosen(Number(Mantissa(minus, u, d), 0 - |d|), f);
  }

  lemma FractionLeft(minus: bool, w: nat, d: string)
    requires AllNumerals(d) && PlaceValue(d) > 0
    ensures var m := Mantissa(minus, Units(false, w), d); m != 0 && m % PowerOfTen(|d|) != 0
  {
    hide PlaceValue, PowerOfTen, NatText, AllNumerals;
    NatTextValue(w);
    PlaceSum(NatText(w), d);
    PlaceBound(d);
    NotDivided(w, PowerOfTen(|d|), PlaceValue(d));
  }

  lemma FloatChosen(n: Number, f: Format)
    requires n.mantissa != 0 && n.exponent < 0 && n.mantissa % PowerOfTen(0 - n.exponent) != 0
    ensures NumberText(n, f) == f.floatText(n)
  {
    hide PowerOfTen;
  }

  lemma {:induction false} PlaceSum(a: string, b: string)
    ensures PlaceValue(a + b) == PlaceValue(a) * PowerOfTen(|b|) + PlaceValue(b)
    decreases |b|
  {
    if b == [] {
      assert a + b == a;
    } else {
      hide PlaceValue, Face;
      var n := |b| - 1;
      var c := b[..n];
      PlaceSum(a, c);
      assert b == c + [b[n]] && a + b == a + c + [b[n]];
      PlaceSnoc(c, b[n]);
      PlaceSnoc(a + c, b[n]);
      var p, q := PowerOfTen(n), PowerOfTen(|b|);
      assert q == 10 * p;
      hide PowerOfTen;
      Tenfold(PlaceValue(a), p);
    }
  }

  lemma {:induction false} PlaceBound(b: string)
    ensures PlaceValue(b) < PowerOfTen(|b|)
  {
    hide Face;
    if b != [] {
      PlaceBound(b[..|b| - 1]);
      FaceBound(b[|b| - 1]);
    }
  }

  lemma FaceBound(c: char)
    ensures Face(c) <= 9
  {
  }

  lemma NotDivided(w: nat, p: nat, r: nat)
    requires 0 < r < p
    ensures (w * p + r) % p != 0 && (0 - (w * p + r)) % p != 0 && w * p + r != 0
  {
    Quotient(w * p + r, p, w, r);
    assert (0 - w - 1) * p == 0 - w * p - p;
    Quotient(0 - (w * p + r), p, 0 - w - 1, p - r);
    Products(w, p);
  }
}
