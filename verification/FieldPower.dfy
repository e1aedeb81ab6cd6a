/** The fixed exponentiation chains of core/ed25519_verify.c, lines 193-215. */
module FieldPower {
  import opened Types
  import opened Limbs
  import opened Field25519

  function Exp(a: int, e: nat): int {
    if e == 0 then 1 else a * Exp(a, e - 1)
  }

  lemma {:induction false} ExpAdd(a: int, m: nat, n: nat)
    ensures Exp(a, m + n) == Exp(a, m) * Exp(a, n)
  {
    if m != 0 {
      ExpAdd(a, m - 1, n);
      var x, y := Exp(a, m - 1), Exp(a, n);
      assert a * (x * y) == (a * x) * y;
    }
  }

  /** c holds a^e modulo p. */
  ghost predicate Holds(c: Gf, a: Gf, e: nat) {
    Cong(Int(c), Exp(Int(a), e))
  }

  lemma SquareHolds(c: Gf, c': Gf, a: Gf, e: nat)
    requires Holds(c, a, e) && Cong(Int(c'), Int(c) * Int(c))
    ensures Holds(c', a, 2 * e)
  {
    ExpAdd(Int(a), e, e);
    CongMul(Int(c), Exp(Int(a), e), Int(c), Exp(Int(a), e));
    CongTrans(Int(c'), Int(c) * Int(c), Exp(Int(a), e) * Exp(Int(a), e));
  }

  lemma TimesHolds(c: Gf, c': Gf, a: Gf, e: nat)
    requires Holds(c, a, e) && Cong(Int(c'), Int(c) * Int(a))
    ensures Holds(c', a, e + 1)
  {
    Same(Int(a));
    CongMul(Int(c), Exp(Int(a), e), Int(a), Int(a));
    CongTrans(Int(c'), Int(c) * Int(a), Exp(Int(a), e) * Int(a));
  }

  /** The bits of e from bit i up. */
  function Prefix(e: nat, i: nat): nat { e / Pow(2, i) }

  /** A square-and-multiply chain reads one more bit of the exponent. */
  lemma PrefixBit(e: nat, i: nat)
    ensures Prefix(e, i) == 2 * Prefix(e, i + 1) + Prefix(e, i) % 2
  {
    var w := Pow(2, i);
    var q, r := e / w, e % w;
    var h := q / 2;
    assert e == w * q + r;
    assert w * q == (2 * w) * h + w * (q % 2) by { assert q == 2 * h + q % 2; SplitBit(w, h, q % 2); }
    DivModUnique(e, 2 * w, h, w * (q % 2) + r);
  }

  lemma PrefixAll(e: nat)
    ensures Prefix(e, 0) == e
  {
  }

  lemma SplitBit(w: int, h: int, b: int)
    ensures w * (2 * h + b) == (2 * w) * h + w * b
  {
  }

  const E_INV: nat := P - 2
  const E_SQRT: nat := (P - 5) / 8

  /** Dividing 2^n - d by 2^i rounds down to 2^(n-i) - ceil(d / 2^i). */
  lemma HighBits(n: nat, i: nat, d: nat, c: nat)
    requires i <= n && Pow(2, i) * (c - 1) < d <= Pow(2, i) * c && c <= Pow(2, n - i)
    ensures Pow(2, n) >= d && Prefix(Pow(2, n) - d, i) == Pow(2, n - i) - c
  {
    PowAdd(2, i, n - i);
    DepthBound(Pow(2, i), Pow(2, n - i), d, c);
    HighQuotient(Pow(2, i), Pow(2, n - i), d, c);
  }

  lemma DepthBound(w: int, m: int, d: int, c: int)
    requires w > 0 && d <= w * c && c <= m
    ensures d <= w * m
  {
    MulMono(w, c, m);
  }

  lemma HighQuotient(w: int, m: int, d: int, c: int)
    requires w > 0 && w * (c - 1) < d <= w * c
    ensures (w * m - d) / w == m - c
  {
    assert (m - c) * w == w * m - w * c;
    assert w * (c - 1) == w * c - w;
    DivModUnique(w * m - d, w, m - c, w * c - d);
  }

  lemma PowersOfTwo()
    ensures Pow(2, 0) == 1 && Pow(2, 1) == 2 && Pow(2, 2) == 4 && Pow(2, 3) == 8 && Pow(2, 4) == 16 && Pow(2, 5) == 32
    ensures Pow(2, 252) == E_SQRT + 3 && Pow(2, 255) == E_INV + 21
  {
    assert Pow(2, 4) == 16;
    assert Pow(2, 5) == 2 * Pow(2, 4);
    PowAdd(2, 4, 4); PowAdd(2, 8, 8); PowAdd(2, 16, 16); PowAdd(2, 32, 32);
    PowAdd(2, 64, 64); PowAdd(2, 128, 64); PowAdd(2, 192, 32); PowAdd(2, 224, 16);
    PowAdd(2, 240, 8); PowAdd(2, 248, 4); PowAdd(2, 252, 3);
  }

  lemma PowMonotone(i: nat, j: nat)
    requires i <= j
    ensures Pow(2, i) <= Pow(2, j)
  {
    PowAdd(2, i, j - i);
    MulMono(Pow(2, i), 1, Pow(2, j - i));
  }

  lemma PowEven(n: nat)
    requires n > 0
    ensures Pow(2, n) % 2 == 0
  {
    assert Pow(2, n) == 2 * Pow(2, n - 1);
  }

  /** Every bit of p - 2 below the top one is set, except bits 2 and 4. */
  lemma InvBits(i: nat)
    requires i <= 254
    ensures i == 254 ==> Prefix(E_INV, i) == 1
    ensures Prefix(E_INV, i) % 2 == if i == 2 || i == 4 then 0 else 1
  {
    hide Pow, Prefix;
    PowersOfTwo();
    var c := if i == 0 then 21 else if i == 1 then 11 else if i == 2 then 6 else if i == 3 then 3
        else if i == 4 then 2 else 1;
    if i >= 5 { PowMonotone(5, i); }
    PowEven(255 - i);
    if i < 5 { PowMonotone(5, 255 - i); }
    HighBits(255, i, 21, c);
  }

  /** Every bit of (p - 5) / 8 below the top one is set, except bit 1. */
  lemma SqrtBits(i: nat)
    requires i <= 251
    ensures i == 251 ==> Prefix(E_SQRT, i) == 1
    ensures Prefix(E_SQRT, i) % 2 == if i == 1 then 0 else 1
  {
    hide Pow, Prefix;
    PowersOfTwo();
    var c := if i == 0 then 3 else if i == 1 then 2 else 1;
    if i >= 2 { PowMonotone(2, i); }
    PowEven(252 - i);
    if i < 2 { PowMonotone(2, 252 - i); }
    HighBits(252, i, 3, c);
  }

  /** inv25519: a^(p-2), reading the exponent from its high bits down. */
  method Inv25519(a: Gf) returns (c: Gf)
    requires Within(a, 0x4_0000)
    ensures Cong(Int(c), Exp(Int(a), P - 2)) && Within(c, 0x4_0000)
  {
    hide Val, Pow, Exp, Prefix;
    c := a;
    InvBits(254);
    ExpOne(Int(a));
    Same(Int(a));
    for i := 254 downto 0
      invariant Within(c, 0x4_0000)
      invariant Holds(c, a, Prefix(E_INV, i))
    {
      ghost var e := Prefix(E_INV, i + 1);
      ghost var c0 := c;
      c := FeMul(c, c);
      ReducedWithin(c);
      SquareHolds(c0, c, a, e);
      ghost var c1 := c;
      if i != 2 && i != 4 {
        c := FeMul(c, a);
        ReducedWithin(c);
        TimesHolds(c1, c, a, 2 * e);
      }
      InvBits(i);
      PrefixBit(E_INV, i);
    }
    PrefixAll(E_INV);
  }

  /** pow2523: a^((p-5)/8). */
  method Pow2523(a: Gf) returns (c: Gf)
    requires Within(a, 0x4_0000)
    ensures Cong(Int(c), Exp(Int(a), (P - 5) / 8)) && Within(c, 0x4_0000)
  {
    hide Val, Pow, Exp, Prefix;
    c := a;
    SqrtBits(251);
    ExpOne(Int(a));
    Same(Int(a));
    for i := 251 downto 0
      invariant Within(c, 0x4_0000)
      invariant Holds(c, a, Prefix(E_SQRT, i))
    {
      ghost var e := Prefix(E_SQRT, i + 1);
      ghost var c0 := c;
      c := FeMul(c, c);
      ReducedWithin(c);
      SquareHolds(c0, c, a, e);
      ghost var c1 := c;
      if i != 1 {
        c := FeMul(c, a);
        ReducedWithin(c);
        TimesHolds(c1, c, a, 2 * e);
      }
      SqrtBits(i);
      PrefixBit(E_SQRT, i);
    }
    PrefixAll(E_SQRT);
  }

  lemma ExpOne(a: int)
    ensures Exp(a, 1) == a
  {
    assert Exp(a, 1) == a * Exp(a, 0);
  }
}
