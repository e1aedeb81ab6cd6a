/** Ed25519 verification (core/ed25519_verify.c, lines 253-333 and 445-495; section 5.1.7 of
    RFC 8032). The group law of edwards25519 is a stated assumption, CurveGroup; everything
    the C computes with it is proved. */
module Ed25519 {
  import opened Types
  import opened Flash
  import opened Limbs
  import opened Field25519
  import opened FieldEncoding
  import opened FieldPower
  import opened Edwards
  import opened Ladder
  import opened PointDecoding
  import opened ScalarOrder
  import Sha2
  import Sha512

  // ---- encoding points ----

  const TOP_BIT: int := 0x8000000000000000000000000000000000000000000000000000000000000000

  /** The integer of the 32-byte encoding of a point: affine y, and the parity of affine x
      in the top bit. */
  function Code(c: Coords): int {
    c.y * Exp(c.z, P - 2) % P + TOP_BIT * (c.x * Exp(c.z, P - 2) % P % 2)
  }

  /** A quotient of coordinates by way of the computed inverse. */
  lemma Quotient(t: int, x: int, z: int, zi: int)
    requires Cong(t, x * zi) && Cong(zi, Exp(z, P - 2))
    ensures Cong(t, (x % P) * Exp(z % P, P - 2))
  {
    hide Exp, Cong;
    CongResidue(x);
    CongResidue(z);
    ExpCong(z, z % P, P - 2);
    CongTrans(zi, Exp(z, P - 2), Exp(z % P, P - 2));
    CongMul(x, x % P, zi, Exp(z % P, P - 2));
    CongTrans(t, x * zi, (x % P) * Exp(z % P, P - 2));
  }

  lemma CodeIs(c: Coords, tx: int, ty: int)
    requires Cong(tx, c.x * Exp(c.z, P - 2)) && Cong(ty, c.y * Exp(c.z, P - 2))
    ensures Code(c) == ty % P + TOP_BIT * (tx % P % 2)
  {
    hide Cong, Exp;
    CongIs(tx, c.x * Exp(c.z, P - 2));
    CongIs(ty, c.y * Exp(c.z, P - 2));
  }

  /** The sign bit goes into the free top bit of the packed y. */
  lemma SignBit(o: seq<byte>, par: byte, r: seq<byte>)
    requires |o| == 32 && Uint(o) < P && par < 2
    ensures o[31] < 128
    ensures r == o[31 := o[31] as int + 128 * par as int] ==> Uint(r) == Uint(o) + TOP_BIT * par
  {
    hide Val, Uint, Pow;
    var lo, h := SplitByte(o, 31);
    Weight31();
    TopFree(lo, Pow(256, 31), o[31], h);
    if r == o[31 := o[31] as int + 128 * par as int] {
      UintIs(o);
      UintIs(r);
      ValUpdate(256, o, 31, 128 * par);
      assert Pow(256, 31) * (128 * par) == (Pow(256, 31) * 128) * par;
    }
  }

  lemma TopFree(lo: nat, w: nat, d: nat, h: nat)
    requires lo + w * (d + 256 * h) < TOP_BIT && w * 128 == TOP_BIT
    ensures d < 128
  {
    if d >= 128 { MulMono(w, 128, d + 256 * h); }
  }

  lemma Weight31()
    ensures Pow(256, 31) * 128 == TOP_BIT && Pow(256, 31) > 0
  {
    ByteWeights();
  }

  /** point_pack. */
  method PointPack(p: Point) returns (r: seq<byte>)
    requires Bounded(p)
    ensures |r| == 32 && Uint(r) == Code(Abs(p))
  {
    hide Val, Int, Exp, Cong, Reduced, Uint, Code;
    var zi := Inv25519(p.z);
    var tx := FeMul(p.x, zi);
    ReducedWithin(tx);
    var ty := FeMul(p.y, zi);
    ReducedWithin(ty);
    Quotient(Int(tx), Int(p.x), Int(p.z), Int(zi));
    Quotient(Int(ty), Int(p.y), Int(p.z), Int(zi));
    CodeIs(Abs(p), Int(tx), Int(ty));
    var o := Pack25519(ty);
    var par := Par25519(tx);
    UintIs(o);
    SignBit(o, par, []);
    r := o[31 := o[31] as int + 128 * par as int];
    SignBit(o, par, r);
  }

  /** point_is_identity: the encoding is 1 followed by zeros. */
  method PointIsIdentity(p: Point) returns (ok: bool)
    requires Bounded(p)
    ensures ok <==> Code(Abs(p)) == 1
  {
    hide Val, Uint, Code;
    var encoded := PointPack(p);
    ok := IsOne(encoded);
    OneValue([1] + Sha2.Zeros(31));
    SameUint(encoded, [1] + Sha2.Zeros(31));
  }

  method IsOne(encoded: seq<byte>) returns (ok: bool)
    requires |encoded| == 32
    ensures ok <==> encoded == [1] + Sha2.Zeros(31)
  {
    ghost var one: seq<byte> := [1] + Sha2.Zeros(31);
    ok := encoded[0] == 1;
    for i := 1 to 32
      invariant ok <==> forall k :: 0 <= k < i ==> encoded[k] == one[k]
    {
      ok := ok && encoded[i] == 0;
    }
    if ok { assert encoded == one; }
  }

  lemma OneValue(one: seq<byte>)
    requires one == [1] + Sha2.Zeros(31)
    ensures |one| == 32 && Uint(one) == 1
  {
    ValZeros(one[1..]);
  }

  lemma SameUint(s: seq<byte>, t: seq<byte>)
    requires |s| == |t|
    ensures s == t <==> Uint(s) == Uint(t)
  {
    if Uint(s) == Uint(t) { ValInjective(256, s, t); }
  }

  // ---- the group ----

  /** Affine points of the curve, in extended coordinates. */
  ghost predicate AffinePoint(c: Coords) {
    c.z == 1 && OnCurve(c.x, c.y) && Cong(c.t, c.x * c.y)
  }

  /** What is assumed of edwards25519: a commutative group that the addition formula
      computes on valid coordinates; affine curve points are valid; and the encoding depends
      on the group element only and determines it. */
  ghost predicate CurveGroup<G(!new)>(m: Monoid<G>, phi: Coords -> G, valid: Coords -> bool, enc: G -> int) {
    && Commutative(m) && Represents(TOOL, m, phi, valid)
    && (forall c :: AffinePoint(c) ==> valid(c))
    && (forall c :: valid(c) ==> enc(phi(c)) == Code(c))
    && (forall g, h :: enc(g) == enc(h) ==> g == h)
  }

  lemma CurveGroupAt<G(!new)>(m: Monoid<G>, phi: Coords -> G, valid: Coords -> bool, enc: G -> int, c: Coords, g: G)
    requires CurveGroup(m, phi, valid, enc) && valid(c)
    ensures enc(phi(c)) == Code(c) && (enc(phi(c)) == enc(g) ==> phi(c) == g)
    ensures valid(IDENTITY) && phi(IDENTITY) == m.e
  {
    hide Commutative, Code;
    assert TOOL.e == IDENTITY;
  }

  lemma CodeOfIdentity()
    ensures Code(IDENTITY) == 1
  {
    hide Exp;
    OnePower(P - 2);
  }

  lemma IdentityCode<G(!new)>(m: Monoid<G>, phi: Coords -> G, valid: Coords -> bool, enc: G -> int, c: Coords)
    requires CurveGroup(m, phi, valid, enc) && valid(c)
    ensures Code(c) == 1 <==> phi(c) == m.e
  {
    hide CurveGroup, Code;
    CodeOfIdentity();
    CurveGroupAt(m, phi, valid, enc, c, m.e);
    CurveGroupAt(m, phi, valid, enc, IDENTITY, m.e);
  }

  lemma {:induction false} OnePower(e: nat)
    ensures Exp(1, e) == 1
  {
    if e != 0 { OnePower(e - 1); }
  }

  /** The curve equation, for any constant d, depends on the residues of the squares only. */
  lemma CurveResidues(d: int, xx: int, yy: int, xx': int, yy': int)
    requires Cong(xx, xx') && Cong(yy, yy') && Cong((d * yy + 1) * xx, yy - 1)
    ensures Cong((d * yy' + 1) * xx', yy' - 1)
  {
    hide Cong;
    Same(d);
    Same(1);
    CongMul(d, d, yy, yy');
    CongSum(d * yy, d * yy', 1, 1);
    CongMul(d * yy + 1, d * yy' + 1, xx, xx');
    CongSum(yy, yy', 1, 1);
    CongSym((d * yy + 1) * xx, (d * yy' + 1) * xx');
    CongTrans((d * yy' + 1) * xx', (d * yy + 1) * xx, yy - 1);
    CongTrans((d * yy' + 1) * xx', yy - 1, yy' - 1);
  }

  // ---- the base point ----

  const BX: Gf := [
    0xd51a, 0x8f25, 0x2d60, 0xc956, 0xa7b2, 0x9525, 0xc760, 0x692c,
    0xdc5c, 0xfdd6, 0xe231, 0xc0a4, 0x53fe, 0xcd6e, 0x36d3, 0x2169]

  const BY: Gf := [
    0x6658, 0x6666, 0x6666, 0x6666, 0x6666, 0x6666, 0x6666, 0x6666,
    0x6666, 0x6666, 0x6666, 0x6666, 0x6666, 0x6666, 0x6666, 0x6666]

  const BASE_X: int := 0x216936d3cd6e53fec0a4e231fdd6dc5c692cc7609525a7b2c9562d608f25d51a
  const BASE_Y: int := 0x6666666666666666666666666666666666666666666666666666666666666658

  lemma BaseValues()
    ensures Int(BX) == BASE_X && Int(BY) == BASE_Y
  {
    var x := LimbValue(BX);
    var y := LimbValue(BY);
    IntIs(BX);
    IntIs(BY);
  }

  /** The base point's y is 4/5, and it lies on the curve. */
  lemma BaseOnCurve()
    ensures 5 * BASE_Y % P == 4 && OnCurve(BASE_X, BASE_Y)
  {
    hide Denominator;
    DenominatorIs(BASE_Y);
    CongIs(Denominator(BASE_Y) * (BASE_X * BASE_X), BASE_Y * BASE_Y - 1);
  }

  /** The affine coordinates of the base point. */
  function Base(): Coords { Coords(BASE_X, BASE_Y, 1, BASE_X * BASE_Y % P) }

  /** scalarbase, up to its scalar multiplication. */
  method BasePoint() returns (q: Point)
    ensures Bounded(q) && Abs(q) == Base() && AffinePoint(Base())
  {
    hide Val, Int, Reduced, OnCurve, AffinePoint, Bounded, Cong, Base;
    BaseValues();
    SmallConstants();
    var t := FeMul(BX, BY);
    ReducedWithin(t);
    q := Point(BX, BY, GF1, t);
    BaseBounded(t);
    BaseCoords(q);
  }

  lemma BaseBounded(t: Gf)
    requires Within(t, 65574)
    ensures Bounded(Point(BX, BY, GF1, t))
  {
  }

  lemma BaseCoords(q: Point)
    requires Int(q.x) == BASE_X && Int(q.y) == BASE_Y && Int(q.z) == 1 && Cong(Int(q.t), BASE_X * BASE_Y)
    ensures Abs(q) == Base() && AffinePoint(Base())
  {
    hide Int, Cong;
    CongIs(Int(q.t), BASE_X * BASE_Y);
    CongResidue(BASE_X * BASE_Y);
    BaseOnCurve();
  }

  // ---- scalars ----

  lemma {:induction false} TimesProduct<G(!new)>(m: Monoid<G>, k: nat, n: nat, kn: nat, x: G)
    requires Commutative(m) && Times(m, n, x) == m.e && kn == k * n
    ensures Times(m, kn, x) == m.e
  {
    hide Commutative;
    if k > 0 {
      LessOne(k, n);
      TimesProduct(m, k - 1, n, kn - n, x);
      TimesAdd(m, kn - n, n, x);
      Laws(m, m.e, m.e, m.e);
    }
  }

  lemma LessOne(k: nat, n: nat)
    requires k > 0
    ensures k * n - n == (k - 1) * n >= 0
  {
  }

  /** On a point whose order divides n, scalars count modulo n. */
  lemma TimesModulo<G(!new)>(m: Monoid<G>, a: nat, b: nat, n: nat, x: G)
    requires Commutative(m) && n > 0 && Times(m, n, x) == m.e && a % n == b % n
    ensures Times(m, a, x) == Times(m, b, x)
  {
    hide Commutative, Times;
    var k := Quotients(a, b, n);
    if k >= 0 {
      TimesSplit(m, a, n, k, b, x);
    } else {
      assert b == a + (-k) * n;
      TimesSplit(m, b, n, -k, a, x);
    }
  }

  lemma TimesSplit<G(!new)>(m: Monoid<G>, a: nat, n: nat, q: nat, r: nat, x: G)
    requires Commutative(m) && Times(m, n, x) == m.e && a == r + q * n
    ensures Times(m, a, x) == Times(m, r, x)
  {
    hide Commutative, Times;
    TimesProduct(m, q, n, a - r, x);
    TimesAdd(m, r, a - r, x);
    Laws(m, Times(m, r, x), m.e, m.e);
  }

  /** reduce_hash. */
  method ReduceHash(hash: seq<byte>) returns (k: seq<byte>)
    requires |hash| == 64
    ensures |k| == 32 && Uint(k) % L == Uint(hash) % L
  {
    hide Val, Uint;
    var x := new i64[64];
    for i := 0 to 64
      invariant forall j :: 0 <= j < i ==> x[j] == hash[j]
    {
      x[i] := hash[i];
    }
    assert x[..] == hash;
    UintIs(hash);
    k := ModL(x);
  }

  // ---- verification ----

  lemma GroupParts<G(!new)>(m: Monoid<G>, phi: Coords -> G, valid: Coords -> bool, enc: G -> int)
    requires CurveGroup(m, phi, valid, enc)
    ensures Commutative(m) && Represents(TOOL, m, phi, valid)
    ensures forall c :: AffinePoint(c) ==> valid(c)
  {
    hide Commutative, Represents, Code, AffinePoint;
  }

  /** A multiple as the ladder computes it. */
  method Multiple<G(!new)>(q: Point, s: seq<byte>, ghost m: Monoid<G>, ghost phi: Coords -> G,
                           ghost valid: Coords -> bool, ghost enc: G -> int) returns (r: Point)
    requires Bounded(q) && |s| == 32 && CurveGroup(m, phi, valid, enc) && valid(Abs(q))
    ensures Bounded(r) && valid(Abs(r)) && phi(Abs(r)) == Times(m, Uint(s), phi(Abs(q)))
  {
    hide CurveGroup, Commutative, Represents, Times, Run, Uint, Add;
    GroupParts(m, phi, valid, enc);
    r := ScalarMult(q, s);
    ScalarBelow(s);
    RunInvariant(TOOL, m, phi, valid, Abs(q), Uint(s), 0);
    PrefixAll(Uint(s));
  }

  /** public_key_is_valid_subgroup: exactly the points other than the identity whose order
      divides L. */
  method PublicKeyIsValidSubgroup<G(!new)>(key: Point, ghost m: Monoid<G>, ghost phi: Coords -> G,
                                           ghost valid: Coords -> bool, ghost enc: G -> int) returns (ok: bool)
    requires Bounded(key) && CurveGroup(m, phi, valid, enc) && valid(Abs(key))
    ensures ok <==> Times(m, L, phi(Abs(key))) == m.e && phi(Abs(key)) != m.e
  {
    hide CurveGroup, Times, Uint, Code, Abs, Bounded, Val;
    OrderValue();
    UintIs(ORDER);
    var multiple := Multiple(key, ORDER, m, phi, valid, enc);
    IdentityCode(m, phi, valid, enc, Abs(multiple));
    IdentityCode(m, phi, valid, enc, Abs(key));
    var torsion := PointIsIdentity(multiple);
    var trivial := PointIsIdentity(key);
    ok := torsion && !trivial;
  }

  /** The encoding of [k](-A) + [S]B. */
  method Recover<G(!new)>(key: Point, k: seq<byte>, s: seq<byte>, ghost m: Monoid<G>, ghost phi: Coords -> G,
                          ghost valid: Coords -> bool, ghost enc: G -> int) returns (r: seq<byte>)
    requires Bounded(key) && |k| == |s| == 32 && CurveGroup(m, phi, valid, enc) && valid(Abs(key))
    ensures |r| == 32
    ensures Uint(r) == enc(m.op(Times(m, Uint(k), phi(Abs(key))), Times(m, Uint(s), phi(Base()))))
  {
    hide CurveGroup, Commutative, Represents, Times, Uint, Code, Add, AffinePoint, Base, Abs, Bounded;
    GroupParts(m, phi, valid, enc);
    var kA := Multiple(key, k, m, phi, valid, enc);
    var base := BasePoint();
    var sB := Multiple(base, s, m, phi, valid, enc);
    var sum := PointAdd(kA, sB);
    RepresentsAt(TOOL, m, phi, valid, Abs(kA), Abs(sB));
    CurveGroupAt(m, phi, valid, enc, Abs(sum), m.e);
    r := PointPack(sum);
  }

  /** What a verifier must check for the key point q = -A, the challenge h and the signature
      (R, S): q has order L, and [h]q + [S]B encodes to R. */
  ghost predicate Valid<G(!new)>(m: Monoid<G>, enc: G -> int, q: G, base: G, h: nat, s: nat, r: int) {
    && s < L && Times(m, L, q) == m.e && q != m.e
    && enc(m.op(Times(m, h, q), Times(m, s, base))) == r
  }

  // ---- signatures of a conforming signer ----

  lemma {:induction false} TimesOfSum<G(!new)>(m: Monoid<G>, n: nat, x: G, y: G)
    requires Commutative(m)
    ensures Times(m, n, m.op(x, y)) == m.op(Times(m, n, x), Times(m, n, y))
  {
    hide Commutative;
    if n == 0 {
      Laws(m, m.e, m.e, m.e);
    } else {
      TimesOfSum(m, n - 1, x, y);
      var u, v := Times(m, n - 1, x), Times(m, n - 1, y);
      Laws(m, u, v, m.op(x, y));
      Laws(m, v, x, y);
      Laws(m, x, v, y);
      Laws(m, u, x, m.op(v, y));
    }
  }

  lemma {:induction false} TimesOfTimes<G(!new)>(m: Monoid<G>, n: nat, a: nat, na: nat, x: G)
    requires Commutative(m) && na == n * a
    ensures Times(m, n, Times(m, a, x)) == Times(m, na, x)
  {
    hide Commutative;
    if n > 0 {
      LessOne(n, a);
      TimesOfTimes(m, n - 1, a, na - a, x);
      TimesAdd(m, na - a, a, x);
    }
  }

  /** What RFC 8032 has a signer compute is accepted: with A = [a]B other than the neutral
      element, q its inverse, R = [r]B and S = r + h * a modulo L, for every a, r and h. */
  lemma SignerIsAccepted<G(!new)>(m: Monoid<G>, enc: G -> int, q: G, base: G, a: nat, r: nat, h: nat, s: nat)
    requires Commutative(m) && Times(m, L, base) == m.e
    requires m.op(q, Times(m, a, base)) == m.e != Times(m, a, base)
    requires s == (r + h * a) % L
    ensures Valid(m, enc, q, base, h, s, enc(Times(m, r, base)))
  {
    hide Commutative, Times;
    OrderIsPositive();
    SignerEquation(m, L, q, base, a, r, h, s);
    InverseOrder(m, L, q, a, base);
  }

  lemma SignerEquation<G(!new)>(m: Monoid<G>, n: nat, q: G, base: G, a: nat, r: nat, h: nat, s: nat)
    requires Commutative(m) && n > 0 && Times(m, n, base) == m.e && s % n == (r + h * a) % n
    requires m.op(q, Times(m, a, base)) == m.e
    ensures m.op(Times(m, h, q), Times(m, s, base)) == Times(m, r, base)
  {
    hide Commutative, Times;
    var k := h * a;
    TimesModulo(m, s, r + k, n, base);
    TimesAdd(m, r, k, base);
    Cancels(m, h, q, a, k, base);
    Laws(m, Times(m, h, q), m.op(Times(m, r, base), Times(m, k, base)), m.e);
    Laws(m, Times(m, r, base), Times(m, k, base), Times(m, h, q));
    Laws(m, Times(m, r, base), m.e, m.e);
  }

  /** The inverse of [a]B has the order of B, and is neutral only with it. */
  lemma InverseOrder<G(!new)>(m: Monoid<G>, n: nat, q: G, a: nat, base: G)
    requires Commutative(m) && Times(m, n, base) == m.e
    requires m.op(q, Times(m, a, base)) == m.e
    ensures Times(m, n, q) == m.e && (q == m.e ==> Times(m, a, base) == m.e)
  {
    hide Commutative, Times;
    LessOne(a + 1, n);
    var k := a * n;
    Cancels(m, n, q, a, k, base);
    TimesProduct(m, a, n, k, base);
    Laws(m, Times(m, n, q), m.e, m.e);
    Laws(m, Times(m, a, base), m.e, m.e);
  }

  /** [h] of an inverse cancels [h * a]. */
  lemma Cancels<G(!new)>(m: Monoid<G>, h: nat, q: G, a: nat, ha: nat, base: G)
    requires Commutative(m) && m.op(q, Times(m, a, base)) == m.e && ha == h * a
    ensures m.op(Times(m, h, q), Times(m, ha, base)) == m.op(Times(m, ha, base), Times(m, h, q)) == m.e
  {
    hide Commutative;
    TimesOfSum(m, h, q, Times(m, a, base));
    TimesOfTimes(m, h, a, ha, base);
    TimesOfTimes(m, h, 0, 0, base);
    Laws(m, Times(m, h, q), Times(m, ha, base), m.e);
    assert Times(m, 0, base) == m.e;
  }

  /** A point q that the key decodes to satisfies the equation of the signature. */
  ghost predicate SignedUnder<G(!new)>(m: Monoid<G>, phi: Coords -> G, enc: G -> int, publicKey: seq<byte>, q: Point,
                                       hash: seq<byte>, signature: seq<byte>)
    requires |publicKey| == 32 && |signature| == 64
  {
    && DecodesTo(publicKey, q)
    && Valid(m, enc, phi(Abs(q)), phi(Base()), Uint(hash), Uint(signature[32..]), Uint(signature[..32]))
  }

  /** eos_ed25519_verify: accepts exactly the signatures with canonical S over a key that
      decodes to a point -A of order L, for which [h](-A) + [S]B encodes to R, where h is the
      whole 512-bit hash of R, A and M. That the decoding misses no point, and finds the only
      one, is where primality comes in. */
  method Verify<S, G(!new)>(f: (S, seq<byte>) -> S, init: S, render: S -> seq<byte>, signature: seq<byte>,
                            publicKey: seq<byte>, message: seq<byte>, ghost m: Monoid<G>, ghost phi: Coords -> G,
                            ghost valid: Coords -> bool, ghost enc: G -> int)
      returns (rc: int, ghost d: Decoded)
    requires |signature| == 64 && |publicKey| == 32 && |message| < 0x1_0000_0000_0000_0000
    requires forall h :: |render(h)| == 64
    requires CurveGroup(m, phi, valid, enc)
    ensures rc == OK || rc == ERR_SIGNATURE
    ensures d.Decoded? ==> DecodesTo(publicKey, d.point)
    ensures d.NotOnCurve? && Uint(signature[32..]) < L && PrimeField() ==>
              forall x :: !OnCurve(x, EncodedY(publicKey))
    ensures var hash := render(Sha2.Hash(f, init, signature[..32] + publicKey + message, 128, 16));
            && (rc == OK ==> d.Decoded? && SignedUnder(m, phi, enc, publicKey, d.point, hash, signature))
            && (PrimeField() ==>
                  (rc == OK <==> exists q :: SignedUnder(m, phi, enc, publicKey, q, hash, signature)))
  {
    hide CurveGroup, Times, Uint, Abs, Base, Sha2.Hash, DecodesTo, PrimeField, OnCurve, EncodedY;
    rc, d := Judge(f, init, render, signature, publicKey, message, m, phi, valid, enc);
    ghost var hash := render(Sha2.Hash(f, init, signature[..32] + publicKey + message, 128, 16));
    if PrimeField() {
      forall q | SignedUnder(m, phi, enc, publicKey, q, hash, signature) ensures rc == OK {
        OnlyPoint(publicKey, d, q);
      }
    }
  }

  /** No point but the decoded one belongs to the key. */
  lemma OnlyPoint(publicKey: seq<byte>, d: Decoded, q: Point)
    requires |publicKey| == 32 && PrimeField() && DecodesTo(publicKey, q)
    requires d.Decoded? ==> DecodesTo(publicKey, d.point)
    requires d.NotOnCurve? ==> forall x :: !OnCurve(x, EncodedY(publicKey))
    ensures d.Decoded? && Abs(d.point) == Abs(q)
  {
    hide Uint, Abs, PrimeField, OnCurve, EncodedY, Bounded, Cong;
    assert OnCurve(Int(q.x), EncodedY(publicKey));
    DecodingIsUnique(publicKey, d.point, q);
  }

  /** The steps of the verification. Reducing h modulo L changes nothing, because by then the
      key is known to lie in the subgroup. */
  method Judge<S, G(!new)>(f: (S, seq<byte>) -> S, init: S, render: S -> seq<byte>, signature: seq<byte>,
                           publicKey: seq<byte>, message: seq<byte>, ghost m: Monoid<G>, ghost phi: Coords -> G,
                           ghost valid: Coords -> bool, ghost enc: G -> int)
      returns (rc: int, ghost d: Decoded)
    requires |signature| == 64 && |publicKey| == 32 && |message| < 0x1_0000_0000_0000_0000
    requires forall h :: |render(h)| == 64
    requires CurveGroup(m, phi, valid, enc)
    ensures rc == OK || rc == ERR_SIGNATURE
    ensures d.Decoded? ==> DecodesTo(publicKey, d.point)
    ensures d.NotOnCurve? && Uint(signature[32..]) < L && PrimeField() ==>
              forall x :: !OnCurve(x, EncodedY(publicKey))
    ensures var hash := render(Sha2.Hash(f, init, signature[..32] + publicKey + message, 128, 16));
            rc == OK <==> d.Decoded? && SignedUnder(m, phi, enc, publicKey, d.point, hash, signature)
  {
    hide CurveGroup, Times, Uint, Code, Add, AffinePoint, Base, Abs, Bounded, Sha2.Hash, DecodesTo, PrimeField,
        OnCurve, EncodedY;
    var canonical := SIsCanonical(signature[32..]);
    if !canonical { return ERR_SIGNATURE, NotOnCurve; }
    var decoded := UnpackNeg(publicKey);
    d := decoded;
    if decoded.NotOnCurve? { return ERR_SIGNATURE, d; }
    var key := decoded.point;
    DecodedIsValid(publicKey, key, m, phi, valid, enc);
    var inSubgroup := PublicKeyIsValidSubgroup(key, m, phi, valid, enc);
    if !inSubgroup { return ERR_SIGNATURE, d; }
    var hash := Challenge(f, init, render, signature[..32], publicKey, message);
    var k := ReduceHash(hash);
    GroupParts(m, phi, valid, enc);
    OrderIsPositive();
    TimesModulo(m, Uint(k), Uint(hash), L, phi(Abs(key)));
    var recovered := Recover(key, k, signature[32..], m, phi, valid, enc);
    SameUint(recovered, signature[..32]);
    rc := if recovered == signature[..32] then OK else ERR_SIGNATURE;
  }

  lemma OrderIsPositive()
    ensures L > 0
  {
  }

  lemma DecodedIsValid<G(!new)>(p: seq<byte>, r: Point, m: Monoid<G>, phi: Coords -> G, valid: Coords -> bool,
      enc: G -> int)
    requires |p| == 32 && DecodesTo(p, r) && CurveGroup(m, phi, valid, enc)
    ensures Bounded(r) && valid(Abs(r))
  {
    hide CurveGroup, Commutative, Represents, Int, Bounded, AffinePoint, DecodesTo;
    DecodedIsAffine(p, r);
    GroupParts(m, phi, valid, enc);
    DecodedIsBounded(p, r);
  }

  lemma DecodedIsBounded(p: seq<byte>, r: Point)
    requires |p| == 32 && DecodesTo(p, r)
    ensures Bounded(r)
  {
  }

  /** A decoded point is an affine point of the curve, on residues. */
  lemma DecodedIsAffine(p: seq<byte>, r: Point)
    requires |p| == 32 && DecodesTo(p, r)
    ensures AffinePoint(Abs(r))
  {
    hide Int, Cong, Uint, Bounded, Denominator;
    var x, y, t := Int(r.x), Int(r.y), Int(r.t);
    CongResidue(x);
    CongResidue(y);
    CongResidue(t);
    CongMul(x, x % P, y, y % P);
    CongTrans(t % P, t, x * y);
    CongTrans(t % P, x * y, (x % P) * (y % P));
    CongMul(x, x % P, x, x % P);
    CongMul(y, y % P, y, y % P);
    DenominatorIs(y);
    DenominatorIs(y % P);
    CurveResidues(D, x * x, y * y, (x % P) * (x % P), (y % P) * (y % P));
  }

  /** The hash of R, A and M. */
  method Challenge<S>(f: (S, seq<byte>) -> S, init: S, render: S -> seq<byte>, r: seq<byte>, a: seq<byte>,
      message: seq<byte>)
      returns (hash: seq<byte>)
    requires |r| == |a| == 32 && |message| < 0x1_0000_0000_0000_0000
    ensures hash == render(Sha2.Hash(f, init, r + a + message, 128, 16))
  {
    hide Sha2.Hash, Sha512.Sha512Ctx.After;
    var ctx := new Sha512.Sha512Ctx(f, init);
    ctx.Update(r, []);
    assert [] + r == r;
    ctx.Update(a, r);
    ctx.Update(message, r + a);
    var h := ctx.Final(r + a + message);
    hash := render(h);
  }
}
