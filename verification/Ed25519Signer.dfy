/** Signatures of a conforming signer, from the bytes to the verdict (core/ed25519_verify.c, lines
    16-19; section 5.1.6 of RFC 8032). The point a key decodes to is the inverse of the signer's
    point, because the addition formula is complete, because d is not a square modulo p. */
module Ed25519Signer {
  import opened Types
  import opened Flash
  import opened Limbs
  import opened Field25519
  import opened FieldPower
  import opened Edwards
  import opened Ladder
  import opened PointDecoding
  import opened ScalarOrder
  import opened Ed25519
  import Sha2

  // ---- d is not a square ----

  /** A square root of 2d. */
  const SQRT_2D: int := 0x5531cdb02f53976ef34bf39cfb549482449c01e5e3ea252a3b885e46ebd673d

  lemma TwiceD()
    ensures Cong(SQRT_2D * SQRT_2D, 2 * D)
  {
    CongIs(SQRT_2D * SQRT_2D, 2 * D);
  }

  lemma {:induction false} MinusOnePower(n: nat)
    ensures Exp(-1, n) == if n % 2 == 0 then 1 else -1
  {
    if n != 0 { MinusOnePower(n - 1); }
  }

  /** A quotient of squares is a square. */
  lemma SquareQuotient(r: int, w: int, k: int) returns (v: int)
    requires PrimeField() && Cong(k * (r * r), w * w) && !Cong(r, 0)
    ensures Cong(v * v, k)
  {
    hide Cong, Exp, PrimeField;
    var s := Exp(r, P - 2);
    v := w * s;
    Fermat(r);
    assert Exp(r, P - 1) == r * s by { ExpStep(r, P - 1); }
    CongMul(r * s, 1, r * s, 1);
    Same(k);
    CongMul(k, k, (r * s) * (r * s), 1);
    Same(s * s);
    CongMul(k * (r * r), w * w, s * s, s * s);
    QuotientTerms(r, w, k, s);
    CongSym(k * ((r * s) * (r * s)), v * v);
    CongTrans(v * v, k * ((r * s) * (r * s)), k);
  }

  lemma QuotientTerms(r: int, w: int, k: int, s: int)
    ensures (k * (r * r)) * (s * s) == k * ((r * s) * (r * s))
    ensures (w * w) * (s * s) == (w * s) * (w * s)
  {
    var t := r * s;
    assert (r * r) * (s * s) == t * t;
    assert (k * (r * r)) * (s * s) == k * ((r * r) * (s * s));
  }

  lemma ExpStep(a: int, e: nat)
    requires e > 0
    ensures Exp(a, e) == a * Exp(a, e - 1)
  {
  }

  /** The root of -1 is not a square: its square root would have order 8, and 8 does not divide p - 1. */
  lemma RootIsNotASquare(j: int)
    requires PrimeField()
    ensures !Cong(j * j, ROOT)
  {
    hide Cong, Exp, PrimeField;
    if Cong(j * j, ROOT) {
      var m := (P - 1) / 4;
      assert P - 1 == 4 * m && m % 2 == 1;
      if Cong(j, 0) { ZeroSquare(j, ROOT); CongIs(ROOT, 0); }
      Fermat(j);
      CongMul(j * j, ROOT, j * j, ROOT);
      RootSquares();
      CongTrans((j * j) * (j * j), ROOT * ROOT, -1);
      ExpCong((j * j) * (j * j), -1, m);
      ExpSquare(j * j, m);
      ExpSquare(j, 2 * m);
      MinusOnePower(m);
      CongSym(Exp(j, P - 1), -1);
      CongTrans(-1, Exp(j, P - 1), 1);
      CongIs(-1, 1);
    }
  }

  lemma ZeroSquare(r: int, v: int)
    requires Cong(r * r, v) && Cong(r, 0)
    ensures Cong(v, 0)
  {
    hide Cong;
    CongMul(r, 0, r, 0);
    CongSym(r * r, v);
    CongTrans(v, r * r, 0);
  }

  /** Nor is 2, since 2 i is (1 + i)^2. */
  lemma TwoIsNotASquare(r: int)
    requires PrimeField()
    ensures !Cong(r * r, 2)
  {
    hide Cong, PrimeField;
    if Cong(r * r, 2) {
      if Cong(r, 0) { ZeroSquare(r, 2); CongIs(2, 0); }
      Same(ROOT);
      CongMul(ROOT, ROOT, r * r, 2);
      CongIs(ROOT * 2, (1 + ROOT) * (1 + ROOT));
      CongTrans(ROOT * (r * r), ROOT * 2, (1 + ROOT) * (1 + ROOT));
      var v := SquareQuotient(r, 1 + ROOT, ROOT);
      RootIsNotASquare(v);
    }
  }

  /** Nor is d, since 2 d is. */
  lemma NotASquare(r: int)
    requires PrimeField()
    ensures !Cong(r * r, D)
  {
    hide Cong, PrimeField;
    if Cong(r * r, D) {
      if Cong(r, 0) { ZeroSquare(r, D); CongIs(D, 0); }
      Same(2);
      CongMul(2, 2, r * r, D);
      TwiceD();
      CongSym(SQRT_2D * SQRT_2D, 2 * D);
      CongTrans(2 * (r * r), 2 * D, SQRT_2D * SQRT_2D);
      var v := SquareQuotient(r, SQRT_2D, 2);
      TwoIsNotASquare(v);
    }
  }

  // ---- the formula is complete ----

  lemma PlusOne(t: int)
    requires PrimeField()
    ensures !Cong(D * (t * t), 1)
  {
    hide Cong, PrimeField;
    if Cong(D * (t * t), 1) {
      Same(D);
      CongMul(D, D, D * (t * t), 1);
      assert D * (D * (t * t)) == (D * t) * (D * t);
      NotASquare(D * t);
    }
  }

  lemma MinusOne(x: int, y: int, t: int)
    requires PrimeField() && OnCurve(x, y) && Cong(t, x * y)
    ensures !Cong(D * (t * t), -1)
  {
    hide Cong, PrimeField, OnCurve;
    if Cong(D * (t * t), -1) {
      var s := x * x;
      SquaresMeet(x, y, t);
      RootSquares();
      Same(D);
      CongMul(D, D, D * (s * s), -1);
      CongMul(ROOT * ROOT, -1, D * (D * (s * s)), D * -1);
      RootTimes(ROOT, D, s);
      NotASquare(ROOT * (D * s));
    }
  }

  lemma RootTimes(i: int, d: int, s: int)
    ensures (i * (d * s)) * (i * (d * s)) == (i * i) * (d * (d * (s * s)))
  {
    var w := d * s;
    assert (i * w) * (i * w) == (i * i) * (w * w);
    assert w * w == d * (d * (s * s));
  }

  /** Where d t^2 is -1, x^2 and y^2 agree. */
  lemma SquaresMeet(x: int, y: int, t: int)
    requires OnCurve(x, y) && Cong(t, x * y) && Cong(D * (t * t), -1)
    ensures var s := x * x; Cong(D * (s * s), -1)
  {
    hide Cong, Denominator;
    var u, s, q := x * y, x * x, y * y;
    CongMul(t, u, t, u);
    Same(D);
    CongMul(D, D, t * t, u * u);
    CongSym(D * (t * t), D * (u * u));
    CongTrans(D * (u * u), D * (t * t), -1);
    DenominatorIs(y);
    CurveTerms(x, y, D);
    Same(s);
    Same(1);
    CongSum(D * (u * u), -1, s, s);
    CongSym(D * (u * u) + s, -1 + s);
    CongTrans(-1 + s, D * (u * u) + s, q - 1);
    CongSum(-1 + s, q - 1, 1, 1);
    assert -1 + s + 1 == s && q - 1 + 1 == q;
    CongMul(s, s, s, q);
    CongMul(D, D, s * s, s * q);
    CongTrans(D * (s * s), D * (u * u), -1);
  }

  lemma CurveTerms(x: int, y: int, d: int)
    ensures (d * (y * y) + 1) * (x * x) == d * ((x * y) * (x * y)) + x * x
    ensures (x * x) * (y * y) == (x * y) * (x * y)
  {
    var s, q := x * x, y * y;
    assert s * q == (x * y) * (x * y);
    assert (d * q + 1) * s == d * (s * q) + s;
  }

  // ---- the inverse of a point ----

  /** n is the affine point c negated. */
  ghost predicate Opposite(c: Coords, n: Coords) {
    AffinePoint(c) && AffinePoint(n) && n.y == c.y && Cong(n.x, 0 - c.x)
  }

  /** The formula adds a point and its negation to the neutral element. */
  lemma OppositesCancel<G(!new)>(m: Monoid<G>, phi: Coords -> G, valid: Coords -> bool, enc: G -> int, c: Coords,
                                n: Coords)
    requires CurveGroup(m, phi, valid, enc) && Opposite(c, n) && PrimeField()
    ensures m.op(phi(n), phi(c)) == m.e
  {
    hide CurveGroup, Represents, Commutative, Code, Opposite, Add, AffinePoint, PrimeField;
    GroupParts(m, phi, valid, enc);
    OppositesAreAffine(c, n);
    RepresentsAt(TOOL, m, phi, valid, n, c);
    SumCode(c, n);
    IdentityCode(m, phi, valid, enc, Add(n, c));
  }

  lemma OppositesAreAffine(c: Coords, n: Coords)
    requires Opposite(c, n)
    ensures AffinePoint(c) && AffinePoint(n)
  {
  }

  /** The code of the sum is that of the neutral element. */
  lemma SumCode(c: Coords, n: Coords)
    requires Opposite(c, n) && PrimeField()
    ensures Code(Add(n, c)) == 1
  {
    hide Cong, PrimeField, Exp, OnCurve, Code;
    SumCoords(c, n);
    var z := Add(n, c).z;
    Fermat(z);
    assert Exp(z, P - 1) == z * Exp(z, P - 2) by { ExpStep(z, P - 1); }
    CodeOfRatio(Add(n, c));
  }

  lemma CodeOfRatio(c: Coords)
    requires c.x == 0 && c.y == c.z && Cong(c.z * Exp(c.z, P - 2), 1)
    ensures Code(c) == 1
  {
    hide Cong, Exp;
    CongIs(c.z * Exp(c.z, P - 2), 1);
  }

  lemma SumCoords(c: Coords, n: Coords)
    requires Opposite(c, n) && PrimeField()
    ensures var s := Add(n, c); s.x == 0 && s.y == s.z && !Cong(s.z, 0)
  {
    hide Cong, PrimeField, OnCurve, LastProducts, Copies;
    var a, b := (n.y - n.x) * (c.y - c.x), (n.y + n.x) * (c.y + c.x);
    var cc, d := 2 * n.t * c.t * D, 2 * n.z * c.z;
    var k := D * (c.t * c.t);
    SumTerms(c, n);
    CopiesIs(D, c.t * c.t);
    CopiesIs(D, 2 * n.t * c.t);
    CongIs(a, b);
    PlusOne(c.t);
    MinusOne(c.x, c.y, c.t);
    CongResidue(b);
    CongResidue(cc);
    CongTrans(b % P, b, 1 + k);
    CongTrans(cc % P, cc, -2 * k);
    assert 2 % P == 2;
    LastCoords(a % P, b % P, cc % P, d % P, k);
  }

  /** The four products of the formula on a point and its negation, with k = d t^2. */
  lemma SumTerms(c: Coords, n: Coords)
    requires Opposite(c, n)
    ensures var k := Copies(D, c.t * c.t);
            && Cong((n.y - n.x) * (c.y - c.x), (n.y + n.x) * (c.y + c.x))
            && Cong((n.y + n.x) * (c.y + c.x), 1 + k)
            && Cong(Copies(D, 2 * n.t * c.t), -2 * k) && 2 * n.z * c.z == 2
  {
    hide Cong, OnCurve, Copies;
    var x, y, k := c.x, c.y, Copies(D, c.t * c.t);
    Same(y);
    CongSum(y, y, n.x, 0 - x);
    assert y - (0 - x) == y + x && y + (0 - x) == y - x;
    Same(y - x);
    Same(y + x);
    CongMul(y - n.x, y + x, y - x, y - x);
    CongMul(y + n.x, y - x, y + x, y + x);
    assert (y + x) * (y - x) == y * y - x * x == (y - x) * (y + x);
    CongSym((y + n.x) * (y + x), y * y - x * x);
    CongTrans((y - n.x) * (y - x), y * y - x * x, (y + n.x) * (y + x));
    CurveAsSum(x, y, c.t);
    CongSym(y * y - x * x, (y + n.x) * (y + x));
    CongTrans((y + n.x) * (y + x), y * y - x * x, 1 + k);
    ProductOfTs(c, n);
  }

  /** The curve equation, as y^2 - x^2 = 1 + d t^2. */
  lemma CurveAsSum(x: int, y: int, t: int)
    requires OnCurve(x, y) && Cong(t, x * y)
    ensures Cong(y * y - x * x, 1 + Copies(D, t * t))
  {
    hide Cong, Denominator, Copies;
    CopiesIs(D, t * t);
    var u, s, q := x * y, x * x, y * y;
    DenominatorIs(y);
    CurveTerms(x, y, D);
    Same(1 - s);
    CongSum(D * (u * u) + s, q - 1, 1 - s, 1 - s);
    assert D * (u * u) + s + (1 - s) == 1 + D * (u * u) && q - 1 + (1 - s) == q - s;
    CongSym(1 + D * (u * u), q - s);
    Same(D);
    Same(1);
    CongMul(t, u, t, u);
    CongMul(D, D, t * t, u * u);
    CongSum(1, 1, D * (t * t), D * (u * u));
    CongSym(1 + D * (t * t), 1 + D * (u * u));
    CongTrans(q - s, 1 + D * (u * u), 1 + D * (t * t));
  }

  lemma ProductOfTs(c: Coords, n: Coords)
    requires Opposite(c, n)
    ensures Cong(Copies(D, 2 * n.t * c.t), -2 * Copies(D, c.t * c.t))
  {
    hide Cong, OnCurve, Copies;
    CopiesIs(D, 2 * n.t * c.t);
    CopiesIs(D, c.t * c.t);
    var x, y, t := c.x, c.y, c.t;
    Same(y);
    CongMul(n.x, 0 - x, y, y);
    CongTrans(n.t, n.x * y, (0 - x) * y);
    Same(0);
    CongSum(0, 0, t, x * y);
    assert (0 - x) * y == 0 - x * y;
    CongSym(0 - t, 0 - x * y);
    CongTrans(n.t, 0 - x * y, 0 - t);
    Same(2 * (t * D));
    CongMul(n.t, 0 - t, 2 * (t * D), 2 * (t * D));
    Rearranged(n.t, t, D);
  }

  lemma Rearranged(u: int, t: int, d: int)
    ensures u * (2 * (t * d)) == 2 * u * t * d && (0 - t) * (2 * (t * d)) == -2 * (d * (t * t))
  {
    var w := t * d;
    assert u * (2 * w) == 2 * u * t * d;
    assert (0 - t) * (2 * w) == -2 * (d * (t * t));
  }

  /** The last four products, with b = 1 + k, c = -2k and d = 2, where 1 + k and 1 - k are not 0. */
  lemma LastCoords(a: int, b: int, c: int, d: int, k: int)
    requires PrimeField() && a == b && Cong(b, 1 + k) && Cong(c, -2 * k) && d == 2
    requires !Cong(k, 1) && !Cong(k, -1)
    ensures var s := LastProducts(a, b, c, d); s.x == 0 && s.y == s.z && !Cong(s.z, 0)
  {
    hide Cong, PrimeField;
    var f, g, h := d - c, d + c, b + a;
    Same(2);
    CongSum(2, 2, c, -2 * k);
    assert 2 - (-2 * k) == 2 * (1 + k) && 2 + -2 * k == 2 * (1 - k);
    CongSum(b, 1 + k, b, 1 + k);
    assert 1 + k + (1 + k) == 2 * (1 + k);
    CongSym(f, 2 * (1 + k));
    CongTrans(h, 2 * (1 + k), f);
    Same(g);
    CongMul(g, g, h, f);
    assert g * f == f * g;
    CongIs(g * h, f * g);
    if Cong(1 + k, 0) { Same(-1); CongSum(1 + k, 0, -1, -1); }
    if Cong(1 - k, 0) { Same(k); CongSum(1 - k, 0, k, k); CongSym(1, k); }
    TwiceIsNotZero(f, 1 + k);
    TwiceIsNotZero(g, 1 - k);
    CongResidue(f * g);
    if Cong(f * g % P, 0) {
      CongTrans(f * g, f * g % P, 0);
      NoZeroDivisors(f, g);
    }
    assert (b - a) * f == 0 && 0 % P == 0;
  }

  lemma TwiceIsNotZero(f: int, v: int)
    requires PrimeField() && Cong(f, 2 * v) && !Cong(v, 0)
    ensures !Cong(f, 0)
  {
    hide Cong, PrimeField;
    if Cong(f, 0) {
      CongSym(f, 2 * v);
      CongTrans(2 * v, f, 0);
      NoZeroDivisors(2, v);
      CongIs(2, 0);
    }
  }

  // ---- from the bytes ----

  /** A public key is the encoding of an affine point with reduced coordinates. */
  ghost predicate Encodes(publicKey: seq<byte>, c: Coords) {
    && |publicKey| == 32 && AffinePoint(c) && 0 <= c.x < P && 0 <= c.y < P
    && Uint(publicKey) == Code(c)
  }

  lemma CodeOfAffine(c: Coords)
    requires AffinePoint(c) && 0 <= c.x < P && 0 <= c.y < P
    ensures Code(c) == c.y + TOP_BIT * (c.x % 2)
  {
    hide Exp;
    OnePower(P - 2);
    assert c.z == 1 && c.y * 1 % P == c.y && c.x * 1 % P == c.x;
  }

  lemma TopBitOf(p: seq<byte>)
    requires |p| == 32
    ensures Uint(p) / TOP_BIT == p[31] / 128
  {
    hide Val, Uint, Pow;
    var lo, h := SplitByte(p, 31);
    ScalarBelow(p);
    Weight31();
    TopSplit(lo, Pow(256, 31), p[31], h, Uint(p));
  }

  lemma TopSplit(lo: nat, w: nat, d: nat, h: nat, v: nat)
    requires lo < w && w * 128 == TOP_BIT && d < 256 && v == lo + w * (d + 256 * h) && v < 2 * TOP_BIT
    ensures v / TOP_BIT == d / 128
  {
    if h > 0 { MulMono(w, 256, d + 256 * h); }
    var q, r := d / 128, d % 128;
    assert w * d == (w * 128) * q + w * r;
    MulMono(w, r, 127);
    assert v == TOP_BIT * q + (lo + w * r);
  }

  /** What the key decodes to is the point of the signer negated. */
  lemma DecodesToOpposite(publicKey: seq<byte>, c: Coords, r: Point)
    requires Encodes(publicKey, c) && DecodesTo(publicKey, r) && PrimeField()
    ensures Opposite(c, Abs(r))
  {
    hide PrimeField, Cong, Uint, Code, OnCurve, Int, Bounded;
    KeyParts(publicKey, c);
    var x := Int(r.x);
    SameUpToSign(x, c.x, c.y);
    SignTells(x, c.x);
    DecodedIsAffine(publicKey, r);
    KeyIsAffine(publicKey, c);
    CongResidue(x);
    CongTrans(x % P, x, 0 - c.x);
  }

  lemma KeyParts(publicKey: seq<byte>, c: Coords)
    requires Encodes(publicKey, c)
    ensures |publicKey| == 32 && EncodedY(publicKey) == c.y && publicKey[31] / 128 == c.x % 2
  {
    hide Uint, Code, AffinePoint;
    assert AffinePoint(c);
    CodeOfAffine(c);
    TopBitOf(publicKey);
  }

  lemma KeyIsAffine(publicKey: seq<byte>, c: Coords)
    requires Encodes(publicKey, c)
    ensures AffinePoint(c) && OnCurve(c.x, c.y)
  {
    hide Code, Uint;
  }

  /** The sign rule picks the negation. */
  lemma SignTells(x: int, a: int)
    requires (Cong(x, a) || Cong(x, 0 - a)) && 0 <= a < P && (x % P == 0 || x % P % 2 != a % 2)
    ensures Cong(x, 0 - a)
  {
    hide Cong;
    if Cong(x, a) {
      CongIs(x, a);
      CongIs(x, 0);
    }
  }

  /** RFC 8032 from key to verdict. The signer has a secret a and the public key of [a]B, other than
      the neutral element; it picks r, sends the encoding of [r]B and S = r + h * a modulo L, where
      h is the hash of that encoding, the key and the message. Every such signature verifies. */
  method SignedMessageVerifies<S, G(!new)>(f: (S, seq<byte>) -> S, init: S, render: S -> seq<byte>,
                                           ghost a: nat, ghost r: nat, ghost c: Coords, encodedR: seq<byte>,
                                           encodedS: seq<byte>, publicKey: seq<byte>, message: seq<byte>,
                                           ghost m: Monoid<G>, ghost phi: Coords -> G,
                                           ghost valid: Coords -> bool, ghost enc: G -> int) returns (rc: int)
    requires |encodedR| == |encodedS| == |publicKey| == 32 && |message| < 0x1_0000_0000_0000_0000
    requires (forall h :: |render(h)| == 64) && CurveGroup(m, phi, valid, enc) && PrimeField()
    requires Times(m, L, phi(Base())) == m.e
    requires Encodes(publicKey, c) && phi(c) == Times(m, a, phi(Base())) != m.e
    requires Uint(encodedR) == enc(Times(m, r, phi(Base())))
    requires var h := Uint(render(Sha2.Hash(f, init, encodedR + publicKey + message, 128, 16)));
             Uint(encodedS) == (r + h * a) % L
    ensures rc == OK
  {
    hide CurveGroup, Times, Uint, Base, Sha2.Hash, DecodesTo, PrimeField, OnCurve, EncodedY, SignedUnder, Encodes;
    var signature := encodedR + encodedS;
    assert signature[..32] == encodedR && signature[32..] == encodedS;
    ghost var hash := render(Sha2.Hash(f, init, encodedR + publicKey + message, 128, 16));
    ghost var d;
    rc, d := Verify(f, init, render, signature, publicKey, message, m, phi, valid, enc);
    SignatureHolds(m, phi, valid, enc, a, r, c, publicKey, d, hash, signature);
  }

  lemma SignatureHolds<G(!new)>(m: Monoid<G>, phi: Coords -> G, valid: Coords -> bool, enc: G -> int, a: nat, r: nat,
                               c: Coords, publicKey: seq<byte>, d: Decoded, hash: seq<byte>, signature: seq<byte>)
    requires CurveGroup(m, phi, valid, enc) && PrimeField() && Times(m, L, phi(Base())) == m.e
    requires Encodes(publicKey, c) && phi(c) == Times(m, a, phi(Base())) != m.e && |signature| == 64
    requires Uint(signature[..32]) == enc(Times(m, r, phi(Base())))
    requires Uint(signature[32..]) == (r + Uint(hash) * a) % L
    requires d.Decoded? ==> DecodesTo(publicKey, d.point)
    requires d.NotOnCurve? && Uint(signature[32..]) < L ==> forall x :: !OnCurve(x, EncodedY(publicKey))
    ensures d.Decoded? && SignedUnder(m, phi, enc, publicKey, d.point, hash, signature)
  {
    hide CurveGroup, Times, Uint, Code, Abs, Base, DecodesTo, PrimeField, OnCurve, EncodedY, Valid, Opposite, Encodes;
    assert d.Decoded? by {
      KeyIsAffine(publicKey, c);
      KeyParts(publicKey, c);
      OrderIsPositive();
      assert OnCurve(c.x, EncodedY(publicKey));
    }
    assert m.op(phi(Abs(d.point)), phi(c)) == m.e by {
      DecodesToOpposite(publicKey, c, d.point);
      OppositesCancel(m, phi, valid, enc, c, Abs(d.point));
    }
    assert Commutative(m) by { GroupParts(m, phi, valid, enc); }
    hide Commutative;
    SignerIsAccepted(m, enc, phi(Abs(d.point)), phi(Base()), a, r, Uint(hash), Uint(signature[32..]));
  }
}
