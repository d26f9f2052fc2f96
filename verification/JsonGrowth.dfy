/** `pow2gt`: the shifts and ors that give the next size of a print buffer. */
module JsonGrowth {

  /** The largest size the doubling reaches without leaving 32-bit signed integers. */
  const MAX_SIZE: nat := 0x4000_0000

  /** Bitwise or. */
  function Or(a: nat, b: nat): (r: nat)
    ensures r >= a && r >= b
  {
    if a == 0 then b
    else if b == 0 then a
    else 2 * Or(a / 2, b / 2) + (if a % 2 == 1 || b % 2 == 1 then 1 else 0)
  }

  function PowerOfTwo(k: nat): (p: nat)
    ensures p > 0
  {
    if k == 0 then 1 else 2 * PowerOfTwo(k - 1)
  }

  lemma {:induction false} OrBound(a: nat, b: nat, k: nat)
    requires a < PowerOfTwo(k) && b < PowerOfTwo(k)
    ensures Or(a, b) < PowerOfTwo(k)
  {
    if a != 0 && b != 0 { OrBound(a / 2, b / 2, k - 1); }
  }

  /** The shifts and ors of `pow2gt`, on the number before. */
  function Smear(x: nat): (r: nat)
    ensures r >= x
  {
    var x1 := Or(x, x / 2);
    var x2 := Or(x1, x1 / 4);
    var x4 := Or(x2, x2 / 16);
    var x8 := Or(x4, x4 / 256);
    Or(x8, x8 / 65536)
  }

  lemma SmearBounds(x: nat, k: nat)
    requires x < PowerOfTwo(k)
    ensures var x1 := Or(x, x / 2); var x2 := Or(x1, x1 / 4); var x4 := Or(x2, x2 / 16); var x8 := Or(x4, x4 / 256);
            x1 < PowerOfTwo(k) && x2 < PowerOfTwo(k) && x4 < PowerOfTwo(k) && x8 < PowerOfTwo(k)
    ensures Smear(x) < PowerOfTwo(k)
  {
    hide Or, PowerOfTwo;
    var x1 := Or(x, x / 2);
    OrBound(x, x / 2, k);
    var x2 := Or(x1, x1 / 4);
    OrBound(x1, x1 / 4, k);
    var x4 := Or(x2, x2 / 16);
    OrBound(x2, x2 / 16, k);
    var x8 := Or(x4, x4 / 256);
    OrBound(x4, x4 / 256, k);
    OrBound(x8, x8 / 65536, k);
  }

  function Pow2gt(x: nat): nat
    requires x > 0
  {
    Smear(x - 1) + 1
  }

  lemma {:induction false} TopBit(x: nat) returns (k: nat)
    requires x > 0
    ensures k > 0 && PowerOfTwo(k - 1) <= x < PowerOfTwo(k)
  {
    if x == 1 {
      k := 1;
    } else {
      k := TopBit(x / 2);
      k := k + 1;
    }
  }

  lemma {:induction false} PowerSum(i: nat, j: nat)
    ensures PowerOfTwo(i) * PowerOfTwo(j) == PowerOfTwo(i + j)
  {
    if i > 0 {
      PowerSum(i - 1, j);
      Doubled(PowerOfTwo(j), PowerOfTwo(i - 1));
    }
  }

  lemma {:induction false} PowerGrows(i: nat, j: nat)
    requires i <= j
    ensures PowerOfTwo(i) <= PowerOfTwo(j)
    decreases j
  {
    if i < j { PowerGrows(i, j - 1); }
  }

  lemma OrHalves(a: nat, b: nat)
    ensures Or(a, b) >= 2 * Or(a / 2, b / 2) + b % 2
  {
  }

  lemma Doubled(h: nat, p: nat)
    ensures h * (2 * p) == 2 * (h * p)
  {
  }

  /** High bits of one number stay above the bits of a smaller one. */
  lemma {:induction false} OrAbove(a: nat, h: nat, m: nat, z: nat)
    requires a >= h * PowerOfTwo(m) && z < PowerOfTwo(m)
    ensures Or(a, z) >= h * PowerOfTwo(m) + z
    decreases m
  {
    hide Or;
    if m > 0 {
      Doubled(h, PowerOfTwo(m - 1));
      var q := h * PowerOfTwo(m - 1);
      assert h * PowerOfTwo(m) == 2 * q;
      OrAbove(a / 2, h, m - 1, z / 2);
      OrHalves(a, z);
    } else {
      PowerZero();
      OrNothing(a, z);
    }
  }

  lemma OrNothing(a: nat, z: nat)
    requires z == 0
    ensures Or(a, z) == a
  {
  }

  /** How many of `k` bits are left when the top `j` are known to be set. */
  function Left(k: nat, j: nat): nat { if j <= k then k - j else 0 }

  /** Shifting by the number of leading ones doubles that number. */
  lemma LeadMore(x: nat, k: nat, j: nat)
    requires PowerOfTwo(k) - PowerOfTwo(Left(k, j)) <= x < PowerOfTwo(k)
    ensures Or(x, x / PowerOfTwo(j)) >= PowerOfTwo(k) - PowerOfTwo(Left(k, 2 * j))
  {
    hide Or, PowerOfTwo;
    if j <= k {
      var p, q, e := PowerOfTwo(j), PowerOfTwo(k - j), PowerOfTwo(Left(k, 2 * j));
      PowerSum(j, k - j);
      assert q <= p * e by {
        if 2 * j <= k { PowerSum(j, k - 2 * j); } else { PowerGrows(k - j, j); PowerZero(); }
      }
      Quotient(x, p, q, e);
      assert (p - 1) * q == p * q - q;
      OrAbove(x, p - 1, k - j, x / p);
    } else {
      PowerZero();
    }
  }

  lemma SomePowers()
    ensures PowerOfTwo(0) == 1 && PowerOfTwo(1) == 2 && PowerOfTwo(2) == 4 && PowerOfTwo(4) == 16
    ensures PowerOfTwo(8) == 0x100 && PowerOfTwo(16) == 0x1_0000 && PowerOfTwo(30) == MAX_SIZE
  {
    PowerSum(2, 2);
    PowerSum(4, 4);
    PowerSum(8, 8);
    PowerSum(4, 2);
    PowerSum(8, 6);
    PowerSum(16, 14);
  }

  lemma PowerZero()
    ensures PowerOfTwo(0) == 1
  {
  }

  lemma Quotient(x: nat, p: nat, q: nat, e: nat)
    requires p > 0 && p * q - q <= x < p * q && q <= p * e
    ensures q - e <= x / p < q
  {
    assert p * (q - e) == p * q - p * e;
    Divided(x, p, q, x / p);
    Divided(x, p, q - e, x / p);
  }

  lemma Divided(x: nat, p: nat, q: int, d: nat)
    requires p > 0 && d == x / p
    ensures x < p * q <==> d < q
  {
    var r := x % p;
    assert x == p * d + r && r < p;
    if d < q {
      Scaled(p, d + 1, q);
      assert p * (d + 1) == p * d + p;
    } else {
      Scaled(p, q, d);
    }
  }

  lemma Scaled(p: nat, a: int, b: int)
    requires a <= b
    ensures p * a <= p * b
  {
  }

  /** All bits below the top one are set in the end: a 32-bit number has no more of them. */
  lemma SmearFills(x: nat, k: nat)
    requires 0 < k <= 32 && PowerOfTwo(k - 1) <= x < PowerOfTwo(k)
    ensures Smear(x) == PowerOfTwo(k) - 1
  {
    hide Or, PowerOfTwo;
    SomePowers();
    DoublePower(k);
    SmearBounds(x, k);
    var x1 := Or(x, x / 2);
    LeadMore(x, k, 1);
    var x2 := Or(x1, x1 / 4);
    LeadMore(x1, k, 2);
    var x4 := Or(x2, x2 / 16);
    LeadMore(x2, k, 4);
    var x8 := Or(x4, x4 / 256);
    LeadMore(x4, k, 8);
    LeadMore(x8, k, 16);
  }

  /** The new size is the power of two that covers the need and is less than twice the need. */
  lemma GrowthFits(x: nat)
    requires 0 < x <= MAX_SIZE
    ensures x <= Pow2gt(x) <= MAX_SIZE && Pow2gt(x) < 2 * x
    ensures exists k :: Pow2gt(x) == PowerOfTwo(k)
  {
    hide Smear, PowerOfTwo;
    SomePowers();
    if x > 1 {
      var k := TopBit(x - 1);
      if k > 30 { PowerGrows(30, k - 1); }
      PowerGrows(k, 30);
      SmearFills(x - 1, k);
      DoublePower(k);
    } else {
      SmearZero();
    }
  }

  lemma DoublePower(k: nat)
    requires k > 0
    ensures PowerOfTwo(k) == 2 * PowerOfTwo(k - 1)
  {
  }

  lemma SmearZero()
    ensures Smear(0) == 0
  {
  }
}
