/** Scalar multiplication: the MSB-first ladder of core/ed25519_verify.c (lines 248-278)
    and the LSB-first double-and-add of tools/check_production_key.py (lines 81-88),
    both against multiples in an arbitrary commutative monoid. */
module Ladder {
  import opened Types
  import opened Limbs
  import opened Field25519
  import opened FieldPower
  import opened Edwards

  // ---- multiples in a commutative monoid ----

  datatype Monoid<!G> = Monoid(op: (G, G) -> G, e: G)

  ghost predicate Commutative<G(!new)>(m: Monoid<G>) {
    && (forall x, y, z :: m.op(m.op(x, y), z) == m.op(x, m.op(y, z)))
    && (forall x, y :: m.op(x, y) == m.op(y, x))
    && (forall x :: m.op(x, m.e) == x)
  }

  lemma Laws<G(!new)>(m: Monoid<G>, x: G, y: G, z: G)
    requires Commutative(m)
    ensures m.op(m.op(x, y), z) == m.op(x, m.op(y, z))
    ensures m.op(x, y) == m.op(y, x)
    ensures m.op(x, m.e) == x == m.op(m.e, x)
  {
    assert m.op(x, m.e) == m.op(m.e, x);
  }

  function Times<G>(m: Monoid<G>, n: nat, x: G): G {
    if n == 0 then m.e else m.op(Times(m, n - 1, x), x)
  }

  lemma {:induction false} TimesAdd<G(!new)>(m: Monoid<G>, a: nat, b: nat, x: G)
    requires Commutative(m)
    ensures Times(m, a + b, x) == m.op(Times(m, a, x), Times(m, b, x))
  {
    hide Commutative;
    if b == 0 {
      Laws(m, Times(m, a, x), x, x);
    } else {
      TimesAdd(m, a, b - 1, x);
      Laws(m, Times(m, a, x), Times(m, b - 1, x), x);
    }
  }

  lemma {:induction false} TimesDouble<G(!new)>(m: Monoid<G>, n: nat, x: G)
    requires Commutative(m)
    ensures Times(m, n, m.op(x, x)) == Times(m, 2 * n, x)
  {
    hide Commutative;
    if n != 0 {
      TimesDouble(m, n - 1, x);
      var t := Times(m, 2 * n - 2, x);
      assert Times(m, 2 * n - 1, x) == m.op(t, x);
      assert Times(m, 2 * n, x) == m.op(Times(m, 2 * n - 1, x), x);
      Laws(m, t, x, x);
    }
  }

  /** What the representation c stands for: phi maps its valid values into the group
      homomorphically. For edwards25519 this is the (assumed) addition law. */
  ghost predicate Represents<C(!new), G>(c: Monoid<C>, m: Monoid<G>, phi: C -> G, valid: C -> bool) {
    && valid(c.e) && phi(c.e) == m.e
    && forall p, q :: valid(p) && valid(q) ==> valid(c.op(p, q)) && phi(c.op(p, q)) == m.op(phi(p), phi(q))
  }

  lemma RepresentsAt<C(!new), G>(c: Monoid<C>, m: Monoid<G>, phi: C -> G, valid: C -> bool, p: C, q: C)
    requires Represents(c, m, phi, valid) && valid(p) && valid(q)
    ensures valid(c.op(p, q)) && phi(c.op(p, q)) == m.op(phi(p), phi(q))
  {
  }

  // ---- the ladder ----

  /** One ladder step: swap on the bit, q := q + r, r := 2r, swap back. */
  function Step<C>(c: Monoid<C>, bit: int, r: C, q: C): (C, C) {
    if bit == 1 then (c.op(r, q), c.op(q, q)) else (c.op(r, r), c.op(q, r))
  }

  /** The pair (r, q) once bits 255 down to i of n have been read. */
  function Run<C>(c: Monoid<C>, q: C, n: nat, i: nat): (C, C)
    requires i <= 256
    decreases 256 - i
  {
    if i == 256 then (c.e, q)
    else var p := Run(c, q, n, i + 1); Step(c, Prefix(n, i) % 2, p.0, p.1)
  }

  /** The ladder invariant: r = [n >> i]Q and q - r = Q. */
  lemma {:induction false} RunInvariant<C(!new), G(!new)>(c: Monoid<C>, m: Monoid<G>, phi: C -> G, valid: C -> bool,
                                                          q: C, n: nat, i: nat)
    requires Commutative(m) && Represents(c, m, phi, valid) && valid(q)
    requires i <= 256 && n < R256
    ensures var p := Run(c, q, n, i);
            && valid(p.0) && valid(p.1)
            && phi(p.0) == Times(m, Prefix(n, i), phi(q))
            && phi(p.1) == m.op(phi(p.0), phi(q))
    decreases 256 - i
  {
    hide Prefix, Commutative, Represents, Times, Step;
    if i == 256 {
      NoBitsAbove(n);
      StartInvariant(c, m, phi, valid, phi(q));
    } else {
      RunInvariant(c, m, phi, valid, q, n, i + 1);
      var p := Run(c, q, n, i + 1);
      PrefixBit(n, i);
      StepInvariant(c, m, phi, valid, p.0, p.1, Prefix(n, i) % 2, Prefix(n, i + 1), phi(q));
    }
  }

  lemma StartInvariant<C(!new), G(!new)>(c: Monoid<C>, m: Monoid<G>, phi: C -> G, valid: C -> bool, x: G)
    requires Commutative(m) && Represents(c, m, phi, valid)
    ensures valid(c.e) && phi(c.e) == m.e == Times(m, 0, x) && x == m.op(m.e, x)
  {
    Laws(m, x, x, x);
  }

  /** One step doubles the multiple and adds the bit. */
  lemma StepInvariant<C(!new), G(!new)>(c: Monoid<C>, m: Monoid<G>, phi: C -> G, valid: C -> bool,
                                        r: C, t: C, bit: int, k: nat, x: G)
    requires Commutative(m) && Represents(c, m, phi, valid) && valid(r) && valid(t) && 0 <= bit < 2
    requires phi(r) == Times(m, k, x) && phi(t) == m.op(phi(r), x)
    ensures var p := Step(c, bit, r, t);
            && valid(p.0) && valid(p.1)
            && phi(p.0) == Times(m, 2 * k + bit, x)
            && phi(p.1) == m.op(phi(p.0), x)
  {
    hide Commutative, Represents;
    TimesAdd(m, k, k, x);
    assert Times(m, 2 * k + 1, x) == m.op(Times(m, 2 * k, x), x);
    StepValue(m, phi(r), x);
    RepresentsAt(c, m, phi, valid, r, r);
    RepresentsAt(c, m, phi, valid, r, t);
    RepresentsAt(c, m, phi, valid, t, r);
    RepresentsAt(c, m, phi, valid, t, t);
  }

  lemma StepValue<G(!new)>(m: Monoid<G>, a: G, x: G)
    requires Commutative(m)
    ensures m.op(a, m.op(a, x)) == m.op(m.op(a, a), x)
    ensures m.op(m.op(a, x), a) == m.op(m.op(a, a), x)
    ensures m.op(m.op(a, x), m.op(a, x)) == m.op(m.op(m.op(a, a), x), x)
  {
    hide Commutative;
    Laws(m, a, a, x);
    Laws(m, m.op(a, x), a, x);
  }

  lemma NoBitsAbove(n: nat)
    requires n < R256
    ensures Prefix(n, 256) == 0
  {
    PowersOfTwo();
    assert Pow(2, 256) == 2 * Pow(2, 255);
  }

  // ---- the tool's double-and-add ----

  function MulFrom<C>(c: Monoid<C>, result: C, addend: C, n: nat): C {
    if n == 0 then result
    else MulFrom(c, if n % 2 == 1 then c.op(result, addend) else result, c.op(addend, addend), n / 2)
  }

  method ToolMul<C>(c: Monoid<C>, point: C, n: nat) returns (result: C)
    ensures result == MulFrom(c, c.e, point, n)
  {
    result := c.e;
    var addend, k := point, n;
    while k != 0
      invariant MulFrom(c, c.e, point, n) == MulFrom(c, result, addend, k)
    {
      if k % 2 == 1 { result := c.op(result, addend); }
      addend := c.op(addend, addend);
      k := k / 2;
    }
  }

  lemma {:induction false} MulFromInvariant<C(!new), G(!new)>(c: Monoid<C>, m: Monoid<G>, phi: C -> G, valid: C -> bool,
                                                              r: C, a: C, n: nat)
    requires Commutative(m) && Represents(c, m, phi, valid) && valid(r) && valid(a)
    ensures phi(MulFrom(c, r, a, n)) == m.op(phi(r), Times(m, n, phi(a)))
  {
    hide Commutative, Represents;
    if n == 0 {
      Laws(m, phi(r), phi(r), phi(r));
    } else {
      var h, x := n / 2, phi(a);
      RepresentsAt(c, m, phi, valid, r, a);
      RepresentsAt(c, m, phi, valid, a, a);
      MulFromInvariant(c, m, phi, valid, if n % 2 == 1 then c.op(r, a) else r, c.op(a, a), h);
      TimesDouble(m, h, x);
      Laws(m, phi(r), x, Times(m, 2 * h, x));
      Laws(m, x, Times(m, 2 * h, x), x);
    }
  }

  /** On every 256-bit scalar the ladder and the tool compute the same multiple, [n]Q. */
  lemma LadderAgreesWithTool<C(!new), G(!new)>(c: Monoid<C>, m: Monoid<G>, phi: C -> G, valid: C -> bool, q: C, n: nat)
    requires Commutative(m) && Represents(c, m, phi, valid) && valid(q) && n < R256
    ensures phi(Run(c, q, n, 0).0) == Times(m, n, phi(q)) == phi(MulFrom(c, c.e, q, n))
  {
    RunInvariant(c, m, phi, valid, q, n, 0);
    PrefixAll(n);
    MulFromInvariant(c, m, phi, valid, c.e, q, n);
    hide Commutative;
    Laws(m, Times(m, n, phi(q)), m.e, m.e);
  }

  // ---- scalarmult on limbs ----

  /** The integer of a little-endian byte string. */
  function Uint(s: seq<byte>): nat {
    ValBound(256, s);
    Val(256, s)
  }

  /** Bit i of a little-endian byte string, as the C reads it. */
  function Bit(s: seq<byte>, i: nat): int
    requires i < 8 * |s|
  {
    s[i / 8] / Pow(2, i % 8) % 2
  }

  lemma {:induction false} PowPow(a: nat)
    ensures Pow(2, 8 * a) == Pow(256, a)
  {
    if a != 0 {
      PowPow(a - 1);
      PowAdd(2, 8, 8 * (a - 1));
      PowersOfTwo();
      PowAdd(2, 4, 4);
    }
  }

  lemma SplitByte(s: seq<byte>, k: nat) returns (lo: nat, h: nat)
    requires k < |s|
    ensures Uint(s) == lo + Pow(256, k) * (s[k] + 256 * h) && lo < Pow(256, k)
  {
    assert s == s[..k] + s[k..];
    ValConcat(256, s[..k], s[k..]);
    lo, h := Uint(s[..k]), Uint(s[k + 1..]);
    ValBound(256, s[..k]);
    ValHorner(256, s, k);
  }

  /** Reading bit i of the bytes is reading bit i of the integer. */
  lemma BitIsPrefix(s: seq<byte>, i: nat)
    requires i < 8 * |s|
    ensures Bit(s, i) == Prefix(Uint(s), i) % 2
  {
    hide Uint;
    var k, j := i / 8, i % 8;
    var lo, h := SplitByte(s, k);
    var u := s[k] + 256 * h;
    PowPow(k);
    PowAdd(2, 8 * k, j);
    BytePowers(j);
    LowQuotient(lo, Pow(256, k), u, Pow(2, j));
    EvenShift(s[k], h, Pow(2, j), Pow(2, 8 - j));
  }

  lemma BytePowers(j: nat)
    requires j < 8
    ensures Pow(2, j) * Pow(2, 8 - j) == 256 && Pow(2, 8 - j) % 2 == 0
  {
    PowAdd(2, j, 8 - j);
    PowersOfTwo();
    PowAdd(2, 4, 4);
    PowEven(8 - j);
  }

  lemma LowQuotient(v: int, w: int, u: int, x: int)
    requires 0 <= v < w && x > 0
    ensures (v + w * u) / (w * x) == u / x
  {
    QuotientOfSum(v, w, u, x, u / x, u % x);
  }

  lemma QuotientOfSum(v: int, w: int, u: int, x: int, q: int, r: int)
    requires 0 <= v < w && x > 0 && u == q * x + r && 0 <= r < x
    ensures (v + w * u) / (w * x) == q
  {
    assert w * u == q * (w * x) + w * r;
    assert w * r <= w * (x - 1) by { MulMono(w, r, x - 1); }
    assert w * (x - 1) == w * x - w;
    assert 0 <= w * r by { MulMono(w, 0, r); }
    DivModUnique(v + w * u, w * x, q, w * r + v);
  }

  lemma EvenShift(b: int, h: int, x: int, y: int)
    requires x > 0 && y > 0 && x * y == 256 && y % 2 == 0
    ensures (b + 256 * h) / x % 2 == b / x % 2
  {
    var t := y * h;
    Reassociate(x, y, h);
    EvenProduct(y, h);
    QuotientShift(b, t, x);
    ParitySum(b / x, t);
  }

  lemma ParitySum(a: int, t: int)
    requires t % 2 == 0
    ensures (a + t) % 2 == a % 2
  {
  }

  lemma Reassociate(x: int, y: int, h: int)
    ensures (x * y) * h == (y * h) * x
  {
  }

  lemma EvenProduct(y: int, h: int)
    requires y % 2 == 0
    ensures (y * h) % 2 == 0
  {
    var z := y / 2;
    assert y * h == 2 * (z * h);
  }

  lemma QuotientShift(b: int, t: int, x: int)
    requires x > 0
    ensures (b + t * x) / x == b / x + t
  {
    var q, r := b / x, b % x;
    assert (q + t) * x == q * x + t * x;
    DivModUnique(b + t * x, x, q + t, r);
  }

  const GF0: Gf := seq(16, _ => 0)
  const GF1: Gf := [1] + seq(15, _ => 0)

  lemma SmallConstants()
    ensures Int(GF0) == 0 && Int(GF1) == 1
  {
    ValZero(GF0);
    ValZero(GF1[1..]);
  }

  lemma StartBounded(r: Point)
    requires r == Point(GF0, GF1, GF1, GF0)
    ensures Bounded(r)
  {
  }

  /** The tool's point arithmetic. */
  const TOOL: Monoid<Coords> := Monoid((p, q) => Add(p, q), IDENTITY)

  /** scalarmult: no operand ever leaves its range and no int64 overflows, whatever
      the scalar; on residues it is the ladder run. */
  method ScalarMult(q0: Point, s: seq<byte>) returns (r: Point)
    requires Bounded(q0) && |s| == 32
    ensures Bounded(r)
    ensures Abs(r) == Run(TOOL, Abs(q0), Uint(s), 0).0
  {
    hide Val, Int, Prefix, Add, Bit, Uint, Bounded;
    r := Point(GF0, GF1, GF1, GF0);
    SmallConstants();
    StartBounded(r);
    var q := q0;
    for i := 256 downto 0
      invariant Bounded(r) && Bounded(q)
      invariant (Abs(r), Abs(q)) == Run(TOOL, Abs(q0), Uint(s), i)
    {
      var b := Bit(s, i);
      BitIsPrefix(s, i);
      if b == 1 { r, q := q, r; }
      q := PointAdd(q, r);
      r := PointAdd(r, r);
      if b == 1 { r, q := q, r; }
    }
  }

  /** For every 256-bit scalar, scalarmult returns [s]Q. */
  method ScalarMultIsMultiple<G(!new)>(ghost m: Monoid<G>, ghost phi: Coords -> G, ghost valid: Coords -> bool,
                                       q: Point, s: seq<byte>) returns (r: Point)
    requires Commutative(m) && Represents(TOOL, m, phi, valid) && valid(Abs(q))
    requires Bounded(q) && |s| == 32
    ensures phi(Abs(r)) == Times(m, Uint(s), phi(Abs(q)))
  {
    hide Commutative, Represents, Add, Abs, Bounded;
    r := ScalarMult(q, s);
    ScalarBelow(s);
    LadderAgreesWithTool(TOOL, m, phi, valid, Abs(q), Uint(s));
  }

  lemma ScalarBelow(s: seq<byte>)
    requires |s| == 32
    ensures Uint(s) < R256
  {
    ValBound(256, s);
    PowPow(32);
    PowersOfTwo();
    assert Pow(2, 256) == 2 * Pow(2, 255);
  }
}
