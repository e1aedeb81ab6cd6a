/** Decoding a compressed point into its negation (core/ed25519_verify.c, lines 335-371). */
module PointDecoding {
  import opened Types
  import opened Limbs
  import opened Field25519
  import opened FieldEncoding
  import opened FieldPower
  import opened Edwards
  import opened Ladder

  const D_LIMBS: Gf := [
    0x78a3, 0x1359, 0x4dca, 0x75eb, 0xd8ab, 0x4141, 0x0a4d, 0x0070,
    0xe898, 0x7779, 0x4079, 0x8cc7, 0xfe73, 0x2b6f, 0x6cee, 0x5203]

  const SQRTM1: Gf := [
    0xa0b0, 0x4a0e, 0x1b27, 0xc4ee, 0xe478, 0xad2f, 0x1806, 0x2f43,
    0xd7a7, 0x3dfb, 0x0099, 0x2b4d, 0xdf0b, 0x4fc1, 0x2480, 0x2b83]

  lemma LimbValue(s: seq<int>) returns (v: int)
    requires |s| == 16
    ensures v == s[0] + 65536 * (s[1] + 65536 * (s[2] + 65536 * (s[3] + 65536 * (s[4] + 65536 * (s[5] + 65536 * (s[6]
              + 65536 * (s[7] + 65536 * (s[8] + 65536 * (s[9] + 65536 * (s[10] + 65536 * (s[11] + 65536 * (s[12]
              + 65536 * (s[13] + 65536 * (s[14] + 65536 * s[15]))))))))))))))
    ensures v == Val(65536, s)
  {
    EightLimbs(s, 8);
    EightLimbs(s, 0);
    ValZero(s[16..]);
    assert s[0..] == s;
    v := Val(65536, s);
  }

  lemma EightLimbs(s: seq<int>, k: nat)
    requires k + 8 <= |s|
    ensures Val(65536, s[k..]) == s[k] + 65536 * (s[k + 1] + 65536 * (s[k + 2] + 65536 * (s[k + 3] + 65536 * (s[k + 4]
              + 65536 * (s[k + 5] + 65536 * (s[k + 6] + 65536 * (s[k + 7] + 65536 * Val(65536, s[k + 8..]))))))))
  {
    hide Val;
    ValHorner(65536, s, k + 7); ValHorner(65536, s, k + 6); ValHorner(65536, s, k + 5); ValHorner(65536, s, k + 4);
    ValHorner(65536, s, k + 3); ValHorner(65536, s, k + 2); ValHorner(65536, s, k + 1); ValHorner(65536, s, k);
  }

  lemma DLimbsValue()
    ensures Int(D_LIMBS) == D
  {
    var v := LimbValue(D_LIMBS);
  }

  const ROOT: int := 0x2b8324804fc1df0b2b4d00993dfbd7a72f431806ad2fe478c4ee1b274a0ea0b0

  lemma RootSquares()
    ensures Cong(ROOT * ROOT, -1)
  {
    CongIs(ROOT * ROOT, -1);
  }

  /** The table's sqrt(-1) squares to -1. */
  lemma SqrtM1Squares()
    ensures Cong(Int(SQRTM1) * Int(SQRTM1), -1)
  {
    hide Int, Cong;
    var v := LimbValue(SQRTM1);
    assert v == ROOT;
    IntIs(SQRTM1);
    RootSquares();
  }

  lemma IntIs(a: Gf)
    ensures Int(a) == Val(65536, a)
  {
  }

  datatype Decoded = NotOnCurve | Decoded(point: Point)

  /** d y^2 + 1. */
  function Denominator(y: int): int { Copies(D, y * y) + 1 }

  lemma DenominatorIs(y: int)
    ensures Denominator(y) == D * (y * y) + 1
  {
    CopiesIs(D, y * y);
  }

  /** The curve equation -x^2 + y^2 = 1 + d x^2 y^2, in the form the code checks. */
  ghost predicate OnCurve(x: int, y: int) {
    Cong(Denominator(y) * (x * x), y * y - 1)
  }

  /** The y of an encoding: everything below the sign bit. */
  function EncodedY(p: seq<byte>): int
    requires |p| == 32
  {
    Uint(p) % 0x8000000000000000000000000000000000000000000000000000000000000000
  }

  /** What an accepted encoding decodes to: a point of the curve with the encoded y, in
      extended coordinates, whose x has the parity opposite to the sign bit (it is the
      negation that verification wants) unless x is zero. */
  ghost predicate DecodesTo(p: seq<byte>, r: Point)
    requires |p| == 32
  {
    && Bounded(r) && Int(r.z) == 1
    && Int(r.y) == EncodedY(p)
    && OnCurve(Int(r.x), Int(r.y))
    && Cong(Int(r.t), Int(r.x) * Int(r.y))
    && (Int(r.x) % P == 0 || (Int(r.x) % P) % 2 != p[31] / 128)
  }

  // ---- square roots ----

  /** What the primality of 2^255 - 19 is needed for; assumed where it is needed. */
  ghost predicate PrimeField() {
    && (forall a {:trigger Exp(a, P - 1)} :: !Cong(a, 0) ==> Cong(Exp(a, P - 1), 1))
    && (forall a, b :: Cong(Product(a, b), 0) ==> Cong(a, 0) || Cong(b, 0))
  }

  function Product(a: int, b: int): int { a * b }

  lemma NoZeroDivisors(a: int, b: int)
    requires PrimeField() && Cong(a * b, 0)
    ensures Cong(a, 0) || Cong(b, 0)
  {
    hide Exp, Cong;
    assert Product(a, b) == a * b;
  }

  lemma {:induction false} ExpCong(a: int, b: int, e: nat)
    requires Cong(a, b)
    ensures Cong(Exp(a, e), Exp(b, e))
  {
    hide Cong;
    if e == 0 {
      Same(1);
    } else {
      ExpCong(a, b, e - 1);
      CongMul(a, b, Exp(a, e - 1), Exp(b, e - 1));
    }
  }

  lemma {:induction false} ExpSquare(a: int, n: nat)
    ensures Exp(a * a, n) == Exp(a, 2 * n)
  {
    if n != 0 {
      ExpSquare(a, n - 1);
      assert Exp(a, 2 * n) == a * Exp(a, 2 * n - 1) == a * (a * Exp(a, 2 * n - 2));
      Regroup(a, Exp(a, 2 * n - 2));
    }
  }

  lemma Regroup(a: int, x: int)
    ensures a * (a * x) == (a * a) * x
  {
  }

  const EIGHTH: nat := (P - 5) / 8

  /** The seventh power of v times u, and the candidate u v^3 (u v^7)^((p-5)/8), as multiplied out. */
  function Seventh(u: int, v: int): int { ((((v * v) * (v * v)) * (v * v)) * u) * v }

  function Root(u: int, v: int): int { (((Exp(Seventh(u, v), EIGHTH) * u) * v) * v) * v }

  /** x^2 v = u (u v^7)^((p-1)/4). */
  lemma RootSquared(u: int, v: int)
    ensures (Root(u, v) * Root(u, v)) * v == u * Exp(Seventh(u, v), 2 * EIGHTH + 1)
  {
    hide Seventh;
    var q, s := Exp(Seventh(u, v), EIGHTH), Seventh(u, v);
    ExpAdd(s, EIGHTH, EIGHTH);
    assert Exp(s, 2 * EIGHTH + 1) == s * Exp(s, 2 * EIGHTH);
    SeventhIs(u, v);
    CubeSquared(u, v, v * v * v, q, s);
    assert Root(u, v) == (u * (v * v * v)) * q by { RootIs(q, u, v); }
  }

  lemma RootIs(q: int, u: int, v: int)
    ensures (((q * u) * v) * v) * v == (u * (v * v * v)) * q
  {
    var w := v * v * v;
    assert (((q * u) * v) * v) * v == (q * u) * w by { Regroup3(q * u, v); }
    assert (q * u) * w == (u * w) * q;
  }

  lemma Regroup3(x: int, v: int)
    ensures ((x * v) * v) * v == x * (v * v * v)
  {
  }

  lemma SeventhIs(u: int, v: int)
    ensures var c := v * v * v; Seventh(u, v) == (c * c) * v * u
  {
    var b := v * v;
    assert (b * b) * b == (v * b) * (v * b);
    var c := v * b;
    assert v * v * v == c;
    assert ((c * c) * u) * v == (c * c) * v * u;
  }

  lemma CubeSquared(u: int, v: int, c: int, q: int, s: int)
    requires s == (c * c) * v * u
    ensures (((u * c) * q) * ((u * c) * q)) * v == u * (s * (q * q))
  {
    var k := u * c;
    assert (k * q) * (k * q) == (k * k) * (q * q);
    assert k * k == (u * u) * (c * c);
    FourFactors(u, c * c, q * q, v);
  }

  lemma FourFactors(u: int, cc: int, qq: int, v: int)
    ensures (((u * u) * cc) * qq) * v == u * (((cc * v) * u) * qq)
  {
    assert ((u * u) * cc) * qq == (u * qq) * (u * cc);
    assert ((u * qq) * (u * cc)) * v == u * (qq * ((u * cc) * v));
  }

  /** If u = w^2 v then (u v^7)^((p-1)/4) is 1 or -1, or u is 0. */
  lemma SquareSign(u: int, v: int, w: int)
    requires PrimeField() && Cong(u, (w * w) * v)
    ensures var t := Exp(Seventh(u, v), 2 * EIGHTH + 1); Cong(t, 1) || Cong(t, -1) || Cong(u, 0)
  {
    hide Exp, PrimeField, Seventh, Cong;
    var c := v * v * v;
    var g := (v * c) * w;
    SeventhIs(u, v);
    SeventhSquare(u, v, c, w, g);
    var n := 2 * EIGHTH + 1;
    ExpCong(Seventh(u, v), g * g, n);
    ExpSquare(g, n);
    var t := Exp(g, 2 * n);
    ExpAdd(g, 2 * n, 2 * n);
    assert 4 * n == P - 1;
    if Cong(g, 0) {
      ZeroFactor(v, c, w, g);
      ZeroProduct(w, v);
      CongTrans(u, (w * w) * v, 0);
    } else {
      Fermat(g);
      UnitRoots(t);
      if Cong(t, 1) { CongTrans(Exp(Seventh(u, v), n), t, 1); } else { CongTrans(Exp(Seventh(u, v), n), t, -1); }
    }
  }

  lemma SeventhSquare(u: int, v: int, c: int, w: int, g: int)
    requires Cong(u, (w * w) * v) && g == (v * c) * w
    ensures Cong((c * c) * v * u, g * g)
  {
    hide Cong;
    Same((c * c) * v);
    CongMul((c * c) * v, (c * c) * v, u, (w * w) * v);
    assert ((c * c) * v) * ((w * w) * v) == ((v * c) * w) * ((v * c) * w);
  }

  lemma ZeroProduct(w: int, v: int)
    requires Cong(v, 0) || Cong(w, 0)
    ensures Cong((w * w) * v, 0)
  {
    hide Cong;
    Same(w * w);
    Same(v);
    if Cong(v, 0) { CongMul(w * w, w * w, v, 0); } else { CongMul(w, 0, w, 0); CongMul(w * w, 0, v, v); }
  }

  lemma ZeroFactor(v: int, c: int, w: int, g: int)
    requires PrimeField() && g == (v * c) * w && Cong(g, 0) && c == v * v * v
    ensures Cong(v, 0) || Cong(w, 0)
  {
    hide PrimeField, Cong;
    NoZeroDivisors(v * c, w);
    if !Cong(w, 0) {
      NoZeroDivisors(v, c);
      if !Cong(v, 0) {
        NoZeroDivisors(v * v, v);
        NoZeroDivisors(v, v);
      }
    }
  }

  lemma Fermat(g: int)
    requires PrimeField() && !Cong(g, 0)
    ensures Cong(Exp(g, P - 1), 1)
  {
  }

  lemma UnitRoots(t: int)
    requires PrimeField() && Cong(t * t, 1)
    ensures Cong(t, 1) || Cong(t, -1)
  {
    hide PrimeField, Cong;
    Same(1);
    CongSum(t * t, 1, 1, 1);
    assert (t - 1) * (t + 1) == t * t - 1;
    NoZeroDivisors(t - 1, t + 1);
    if Cong(t - 1, 0) { CongSum(t - 1, 0, 1, 1); } else { CongSum(t + 1, 0, 1, 1); }
  }

  /** When u / v is a square, the candidate or its product with sqrt(-1) is a root. */
  lemma CandidateWorks(u: int, v: int, w: int, x: int)
    requires PrimeField() && Cong(u, (w * w) * v) && Cong(x, Root(u, v))
    ensures Cong((x * x) * v, u) || Cong((x * x) * v, -u)
  {
    hide Exp, PrimeField, Root, Seventh, Cong;
    var r, t := Root(u, v), Exp(Seventh(u, v), 2 * EIGHTH + 1);
    Same(v);
    Same(u);
    CongMul(x, r, x, r);
    CongMul(x * x, r * r, v, v);
    RootSquared(u, v);
    SquareSign(u, v, w);
    if Cong(u, 0) {
      Same(t);
      CongMul(u, 0, t, t);
      CongTrans((x * x) * v, u * t, 0);
      CongSym(u, 0);
      CongTrans((x * x) * v, 0, u);
    } else if Cong(t, 1) {
      CongMul(u, u, t, 1);
      CongTrans((x * x) * v, u * t, u);
    } else {
      CongMul(u, u, t, -1);
      CongTrans((x * x) * v, u * t, -u);
    }
  }

  lemma ImaginaryWorks(u: int, v: int, x: int, i: int, x2: int)
    requires Cong((x * x) * v, -u) && Cong(i * i, -1) && Cong(x2, x * i)
    ensures Cong((x2 * x2) * v, u)
  {
    hide Cong;
    var s := (x * x) * v;
    CongMul(x2, x * i, x2, x * i);
    Same(v);
    CongMul(x2 * x2, (x * i) * (x * i), v, v);
    assert ((x * i) * (x * i)) * v == s * (i * i);
    CongMul(s, -u, i * i, -1);
    CongTrans((x2 * x2) * v, s * (i * i), u);
  }

  /** x^2 (d y^2 + 1) against y^2 - 1: the test the code makes on a candidate root. */
  method IsRoot(x: Gf, num: Gf, den: Gf) returns (ok: bool)
    requires Within(x, 65574) && Within(num, 0x4_0000) && Within(den, 0x4_0000)
    ensures ok <==> Cong((Int(x) * Int(x)) * Int(den), Int(num))
  {
    hide Int, Reduced, Cong;
    var sq := FeMul(x, x);
    ReducedWithin(sq);
    var chk := FeMul(sq, den);
    ReducedWithin(chk);
    ghost var t := (Int(x) * Int(x)) * Int(den);
    Same(Int(den));
    CongMul(Int(sq), Int(x) * Int(x), Int(den), Int(den));
    CongTrans(Int(chk), Int(sq) * Int(den), t);
    var neq := Neq25519(chk, num);
    ok := !neq;
    if ok {
      CongSym(Int(chk), t);
      CongTrans(t, Int(chk), Int(num));
    } else if Cong(t, Int(num)) {
      CongTrans(Int(chk), t, Int(num));
    }
  }

  /** A candidate root: num den^3 (num den^7)^((p-5)/8). */
  method Candidate(num: Gf, den: Gf) returns (x: Gf)
    requires Within(num, 0x2_0000) && Within(den, 0x2_0000)
    ensures Within(x, 65574) && Cong(Int(x), Root(Int(num), Int(den)))
  {
    hide Int, Reduced, Cong, Exp;
    ghost var u, v := Int(num), Int(den);
    Same(v);
    Same(u);
    var den2 := FeMul(den, den);
    ReducedWithin(den2);
    var den4 := FeMul(den2, den2);
    CongMul(Int(den2), v * v, Int(den2), v * v);
    ReducedWithin(den4);
    CongTrans(Int(den4), Int(den2) * Int(den2), (v * v) * (v * v));
    var den6 := FeMul(den4, den2);
    CongMul(Int(den4), (v * v) * (v * v), Int(den2), v * v);
    ReducedWithin(den6);
    CongTrans(Int(den6), Int(den4) * Int(den2), ((v * v) * (v * v)) * (v * v));
    var t := FeMul(den6, num);
    CongMul(Int(den6), ((v * v) * (v * v)) * (v * v), u, u);
    CongTrans(Int(t), Int(den6) * u, (((v * v) * (v * v)) * (v * v)) * u);
    ReducedWithin(t);
    t := TimesDen(t, den, (((v * v) * (v * v)) * (v * v)) * u);
    ghost var s := Int(t);
    t := Pow2523(t);
    ExpCong(s, Seventh(u, v), EIGHTH);
    CongTrans(Int(t), Exp(s, EIGHTH), Exp(Seventh(u, v), EIGHTH));
    ghost var e := Exp(Seventh(u, v), EIGHTH);
    t := TimesDen(t, num, e);
    t := TimesDen(t, den, e * u);
    t := TimesDen(t, den, (e * u) * v);
    x := TimesDen(t, den, ((e * u) * v) * v);
  }

  /** A product, tracked against the integer it stands for. */
  method TimesDen(t: Gf, den: Gf, ghost i: int) returns (r: Gf)
    requires Within(t, 0x4_0000) && Within(den, 0x4_0000) && Cong(Int(t), i)
    ensures Within(r, 65574) && Cong(Int(r), i * Int(den))
  {
    hide Int, Reduced, Cong;
    r := FeMul(t, den);
    ReducedWithin(r);
    Same(Int(den));
    CongMul(Int(t), i, Int(den), Int(den));
    CongTrans(Int(r), Int(t) * Int(den), i * Int(den));
  }

  /** The x of a point with the given y: found exactly when the curve has one. */
  method SolveX(y: Gf) returns (ok: bool, x: Gf)
    requires Digits(65536, y)
    ensures ok ==> Within(x, 65574) && OnCurve(Int(x), Int(y))
    ensures !ok && PrimeField() ==> forall w :: !OnCurve(w, Int(y))
  {
    hide Val, Int, Reduced, Cong, PrimeField, Root, OnCurve;
    SmallConstants();
    var y2 := FeMul(y, y);
    ReducedWithin(y2);
    var dy := FeMul(y2, D_LIMBS);
    ReducedWithin(dy);
    var num, den := FeSub(y2, GF1), FeAdd(GF1, dy);
    DLimbsValue();
    EquationTerms(Int(y), Int(y2), Int(dy), Int(num), Int(den), Int(D_LIMBS));
    x := Candidate(num, den);
    ghost var first := x;
    ok := IsRoot(x, num, den);
    if !ok {
      x := FeMul(x, SQRTM1);
      ReducedWithin(x);
    }
    ghost var rooted := ok;
    ok := IsRoot(x, num, den);
    if ok { RootOnCurve(Int(x), Int(y), Int(num), Int(den)); }
    if !ok && !rooted { NoRoot(Int(y), Int(num), Int(den), Int(first), Int(x)); }
  }

  /** Neither the candidate nor its product with sqrt(-1) is a root: there is none. */
  lemma NoRoot(y: int, u: int, v: int, x: int, x2: int)
    requires Cong(u, y * y - 1) && Cong(v, Denominator(y)) && Cong(x, Root(u, v)) && Cong(x2, x * Int(SQRTM1))
    requires !Cong((x * x) * v, u) && !Cong((x2 * x2) * v, u)
    ensures PrimeField() ==> forall w :: !OnCurve(w, y)
  {
    hide PrimeField, Root, Int, Cong, OnCurve;
    if PrimeField() {
      forall w ensures !OnCurve(w, y) {
        if OnCurve(w, y) {
          SquareOver(y, u, v, w);
          CandidateWorks(u, v, w, x);
          SqrtM1Squares();
          ImaginaryWorks(u, v, x, Int(SQRTM1), x2);
        }
      }
    }
  }

  /** A point with this y makes u / v a square. */
  lemma SquareOver(y: int, u: int, v: int, w: int)
    requires Cong(u, y * y - 1) && Cong(v, Denominator(y)) && OnCurve(w, y)
    ensures Cong(u, (w * w) * v)
  {
    hide Cong;
    hide Denominator;
    var k := Denominator(y);
    Same(w * w);
    CongMul(v, k, w * w, w * w);
    CongTrans(v * (w * w), k * (w * w), y * y - 1);
    CongSym(v * (w * w), y * y - 1);
    CongTrans(u, y * y - 1, v * (w * w));
    assert (w * w) * v == v * (w * w);
  }

  /** unpackneg. */
  method UnpackNeg(p: seq<byte>) returns (d: Decoded)
    requires |p| == 32
    ensures d.Decoded? ==> DecodesTo(p, d.point)
    ensures d.NotOnCurve? && PrimeField() ==> forall x :: !OnCurve(x, EncodedY(p))
  {
    hide Val, Int, Reduced, Uint, OnCurve, Bounded, PrimeField;
    var y := Unpack25519(p);
    UintIs(p);
    var ok, x := SolveX(y);
    if !ok { return NotOnCurve; }
    var par := Par25519(x);
    SmallConstants();
    if par == p[31] / 128 {
      NegatedRoot(Int(x), Int(y));
      x := FeSub(GF0, x);
    }
    var t := FeMul(x, y);
    ReducedWithin(t);
    StillBounded(x, y, t);
    return Decoded(Point(x, y, GF1, t));
  }

  lemma UintIs(p: seq<byte>)
    ensures Uint(p) == Val(256, p)
  {
  }

  lemma StillBounded(x: Gf, y: Gf, t: Gf)
    requires Within(x, 65574) && Digits(65536, y) && Within(t, 65574)
    ensures Bounded(Point(x, y, GF1, t))
  {
  }

  lemma EquationTerms(y: int, y2: int, dy: int, num: int, den: int, d: int)
    requires Cong(y2, y * y) && Cong(dy, y2 * d) && num == y2 - 1 && den == 1 + dy && d == D
    ensures Cong(num, y * y - 1) && Cong(den, Denominator(y))
  {
    hide Cong;
    DenominatorIs(y);
    Same(1);
    Same(D);
    CongMul(y2, y * y, d, D);
    assert (y * y) * D == D * (y * y);
    CongTrans(dy, y2 * d, D * (y * y));
    CongSum(y2, y * y, 1, 1);
    CongSum(dy, D * (y * y), 1, 1);
  }

  lemma RootOnCurve(x: int, y: int, num: int, den: int)
    requires Cong((x * x) * den, num) && Cong(num, y * y - 1) && Cong(den, Denominator(y))
    ensures OnCurve(x, y)
  {
    hide Cong;
    hide Denominator;
    var k := Denominator(y);
    Same(x * x);
    CongMul(x * x, x * x, den, k);
    CongSym((x * x) * den, (x * x) * k);
    CongTrans((x * x) * k, (x * x) * den, num);
    CongTrans((x * x) * k, num, y * y - 1);
    assert (x * x) * k == k * (x * x);
  }

  /** Negating a root keeps the equation and flips the parity of a non-zero residue. */
  lemma NegatedRoot(x: int, y: int)
    requires OnCurve(x, y)
    ensures OnCurve(0 - x, y)
    ensures x % P != 0 ==> (0 - x) % P == P - x % P
    ensures x % P == 0 ==> (0 - x) % P == 0
  {
    hide Cong;
    assert (0 - x) * (0 - x) == x * x;
    ModNegate(x, P);
  }

  // ---- at most one point ----

  /** The denominator of the curve equation is never zero where the curve has a point. */
  lemma DenominatorIsNotZero(x: int, y: int)
    requires OnCurve(x, y)
    ensures !Cong(Denominator(y), 0)
  {
    hide Cong, Denominator;
    DenominatorIs(y);
    var s := y * y;
    var k := Denominator(y);
    if Cong(k, 0) {
      Same(x * x);
      Same(1);
      Same(D);
      CongMul(k, 0, x * x, x * x);
      CongSym(k * (x * x), s - 1);
      CongTrans(s - 1, k * (x * x), 0);
      CongSum(s - 1, 0, 1, 1);
      CongMul(D, D, s, 1);
      CongSum(D * s, D, 1, 1);
      CongSym(k, D + 1);
      CongTrans(D + 1, k, 0);
      CongIs(D + 1, 0);
    }
  }

  /** Two points with one y differ in the sign of x only. */
  lemma SameUpToSign(x: int, x': int, y: int)
    requires PrimeField() && OnCurve(x, y) && OnCurve(x', y)
    ensures Cong(x, x') || Cong(x, 0 - x')
  {
    hide Cong, PrimeField, Denominator;
    var s := y * y;
    var k := Denominator(y);
    CongSum(k * (x * x), s - 1, k * (x' * x'), s - 1);
    Factored(k, x, x');
    NoZeroDivisors(k, (x - x') * (x + x'));
    DenominatorIsNotZero(x, y);
    NoZeroDivisors(x - x', x + x');
    Same(x');
    if Cong(x - x', 0) { CongSum(x - x', 0, x', x'); } else { CongSum(x + x', 0, x', x'); }
  }

  lemma Factored(k: int, x: int, y: int)
    ensures k * (x * x) - k * (y * y) == k * ((x - y) * (x + y))
  {
    assert (x - y) * (x + y) == x * x - y * y;
  }

  /** Of a residue and its negation, at most one has the parity that the sign bit asks for. */
  lemma SameSign(x: int, x': int, sign: int)
    requires Cong(x, x') || Cong(x, 0 - x')
    requires 0 <= sign < 2 && (x % P == 0 || x % P % 2 != sign) && (x' % P == 0 || x' % P % 2 != sign)
    ensures x % P == x' % P
  {
    hide Cong;
    CongIs(x, x');
    CongIs(x, 0 - x');
    ModNegate(x', P);
  }

  /** An encoding decodes to one point only. */
  lemma DecodingIsUnique(p: seq<byte>, r: Point, r': Point)
    requires |p| == 32 && PrimeField() && DecodesTo(p, r) && DecodesTo(p, r')
    ensures Abs(r) == Abs(r')
  {
    hide Cong, PrimeField, Int, Bounded, OnCurve;
    var x, x', y := Int(r.x), Int(r'.x), Int(r.y);
    SameUpToSign(x, x', y);
    SameSign(x, x', p[31] / 128);
    CongIs(x, x');
    Same(y);
    CongMul(x, x', y, y);
    CongTrans(Int(r.t), x * y, x' * y);
    CongSym(Int(r'.t), x' * y);
    CongTrans(Int(r.t), x' * y, Int(r'.t));
    CongIs(Int(r.t), Int(r'.t));
  }
}
