/** Point arithmetic of core/ed25519_verify.c (lines 217-371) against the integer
    formulas of tools/check_production_key.py. */
module Edwards {
  import opened Types
  import opened Limbs
  import opened Field25519
  import opened FieldEncoding
  import opened FieldPower

  // ---- reference: extended coordinates as residues, tools/check_production_key.py ----

  /** -121665/121666 modulo p. */
  const D: int := 0x52036cee2b6ffe738cc740797779e89800700a4d4141d8ab75eb4dca135978a3

  lemma DIsTheCurveConstant()
    ensures (121666 * D + 121665) % P == 0
  {
  }

  datatype Coords = Coords(x: int, y: int, z: int, t: int)

  const IDENTITY := Coords(0, 1, 1, 0)

  /** The tool's _add. */
  function Add(p: Coords, q: Coords): Coords {
    var a := (p.y - p.x) * (q.y - q.x) % P;
    var b := (p.y + p.x) * (q.y + q.x) % P;
    var c := 2 * p.t * q.t * D % P;
    var d := 2 * p.z * q.z % P;
    LastProducts(a, b, c, d)
  }

  function LastProducts(a: int, b: int, c: int, d: int): Coords {
    var e, f, g, h := b - a, d - c, d + c, b + a;
    Coords(e * f % P, g * h % P, f * g % P, e * h % P)
  }

  // ---- limb points ----

  const D2_LIMBS: Gf := [
    0xf159, 0x26b2, 0x9b94, 0xebd6, 0xb156, 0x8283, 0x149a, 0x00e0,
    0xd130, 0xeef3, 0x80f2, 0x198e, 0xfce7, 0x56df, 0xd9dc, 0x2406]

  datatype Point = Point(x: Gf, y: Gf, z: Gf, t: Gf)

  /** The invariant of every run: limbs as fe_mul leaves them, or smaller. */
  ghost predicate Bounded(p: Point) {
    Within(p.x, 65574) && Within(p.y, 65574) && Within(p.z, 65574) && Within(p.t, 65574)
  }

  function Abs(p: Point): Coords {
    Coords(Int(p.x) % P, Int(p.y) % P, Int(p.z) % P, Int(p.t) % P)
  }

  lemma ValHorner(b: nat, s: seq<int>, k: nat)
    requires b > 0 && k < |s|
    ensures Val(b, s[k..]) == s[k] + b * Val(b, s[k + 1..])
  {
    assert s[k..][1..] == s[k + 1..];
  }

  lemma D2IsTwiceD()
    ensures Cong(Int(D2_LIMBS), 2 * D)
  {
    hide Val;
    var s: seq<int> := D2_LIMBS;
    ValHorner(65536, s, 15); ValHorner(65536, s, 14); ValHorner(65536, s, 13); ValHorner(65536, s, 12);
    ValHorner(65536, s, 11); ValHorner(65536, s, 10); ValHorner(65536, s, 9); ValHorner(65536, s, 8);
    ValHorner(65536, s, 7); ValHorner(65536, s, 6); ValHorner(65536, s, 5); ValHorner(65536, s, 4);
    ValHorner(65536, s, 3); ValHorner(65536, s, 2); ValHorner(65536, s, 1); ValHorner(65536, s, 0);
    ValZero(s[16..]);
    assert s[0..] == s;
    CongIs(Int(D2_LIMBS), 2 * D);
  }

  // ---- point_add ----

  /** Products of sums and differences of bounded operands are congruent to the
      products of the residues' sums and differences. */
  lemma DiffProduct(r: int, x: int, y: int, u: int, v: int)
    requires Cong(r, (y - x) * (v - u))
    ensures Cong(r, (y % P - x % P) * (v % P - u % P))
  {
    hide Cong;
    CongResidue(x); CongResidue(y); CongResidue(u); CongResidue(v);
    CongSum(y, y % P, x, x % P);
    CongSum(v, v % P, u, u % P);
    CongMul(y - x, y % P - x % P, v - u, v % P - u % P);
    CongTrans(r, (y - x) * (v - u), (y % P - x % P) * (v % P - u % P));
  }

  lemma SumProduct(r: int, x: int, y: int, u: int, v: int)
    requires Cong(r, (x + y) * (u + v))
    ensures Cong(r, (y % P + x % P) * (v % P + u % P))
  {
    hide Cong;
    CongResidue(x); CongResidue(y); CongResidue(u); CongResidue(v);
    CongSum(y, y % P, x, x % P);
    CongSum(v, v % P, u, u % P);
    CongMul(x + y, y % P + x % P, u + v, v % P + u % P);
    CongTrans(r, (x + y) * (u + v), (y % P + x % P) * (v % P + u % P));
  }

  lemma TProduct(r: int, s: int, d: int, t1: int, t2: int)
    requires Cong(s, t1 * t2) && Cong(r, s * d) && Cong(d, 2 * D)
    ensures Cong(r, 2 * (t1 % P) * (t2 % P) * D)
  {
    hide Cong;
    var a, b := t1 % P, t2 % P;
    CongResidue(t1); CongResidue(t2);
    CongMul(t1, a, t2, b);
    CongTrans(s, t1 * t2, a * b);
    CongMul(s, a * b, d, 2 * D);
    CongTrans(r, s * d, (a * b) * (2 * D));
    assert (a * b) * (2 * D) == 2 * a * b * D;
  }

  lemma ZProduct(s: int, z1: int, z2: int)
    requires Cong(s, z1 * z2)
    ensures Cong(s + s, 2 * (z1 % P) * (z2 % P))
  {
    hide Cong;
    var a, b := z1 % P, z2 % P;
    CongResidue(z1); CongResidue(z2);
    CongMul(z1, a, z2, b);
    CongTrans(s, z1 * z2, a * b);
    CongSum(s, a * b, s, a * b);
    assert a * b + a * b == 2 * a * b;
  }

  /** The last four products: operands are sums or differences of residues. */
  lemma FinalProduct(r: int, e: int, f: int, e': int, f': int)
    requires Cong(r, e * f) && Cong(e, e') && Cong(f, f')
    ensures Cong(r, e' * f') && Cong(r, f' * e')
  {
    hide Cong;
    CongMul(e, e', f, f');
    CongTrans(r, e * f, e' * f');
    assert e' * f' == f' * e';
  }

  /** point_add: the tool's formula on residues, with every operand of every
      multiplication in range and the result in range again. */
  method PointAdd(p: Point, q: Point) returns (r: Point)
    requires Bounded(p) && Bounded(q)
    ensures Bounded(r)
    ensures Abs(r) == Add(Abs(p), Abs(q))
  {
    hide Val, Int, Cong, Reduced;
    var a := FeMul(FeSub(p.y, p.x), FeSub(q.y, q.x));
    DiffProduct(Int(a), Int(p.x), Int(p.y), Int(q.x), Int(q.y));
    var b := FeMul(FeAdd(p.x, p.y), FeAdd(q.x, q.y));
    SumProduct(Int(b), Int(p.x), Int(p.y), Int(q.x), Int(q.y));
    var c0 := FeMul(p.t, q.t);
    ReducedWithin(a); ReducedWithin(b); ReducedWithin(c0);
    var c := FeMul(c0, D2_LIMBS);
    D2IsTwiceD();
    TProduct(Int(c), Int(c0), Int(D2_LIMBS), Int(p.t), Int(q.t));
    var d0 := FeMul(p.z, q.z);
    ZProduct(Int(d0), Int(p.z), Int(q.z));
    ReducedWithin(c); ReducedWithin(d0);
    var d := FeAdd(d0, d0);
    r := FinishAdd(a, b, c, d);
    ghost var u, v := Abs(p), Abs(q);
    CongIs(Int(a), (u.y - u.x) * (v.y - v.x));
    CongIs(Int(b), (u.y + u.x) * (v.y + v.x));
    CongIs(Int(c), 2 * u.t * v.t * D);
    CongIs(Int(d), 2 * u.z * v.z);
  }

  method FinishAdd(a: Gf, b: Gf, c: Gf, d: Gf) returns (r: Point)
    requires Within(a, 65574) && Within(b, 65574) && Within(c, 65574) && Within(d, 131148)
    ensures Bounded(r)
    ensures Abs(r) == LastProducts(Int(a) % P, Int(b) % P, Int(c) % P, Int(d) % P)
  {
    hide Val, Int, Reduced, Cong;
    var e, f, g, h := FeSub(b, a), FeSub(d, c), FeAdd(d, c), FeAdd(b, a);
    ghost var a', b', c', d' := Int(a) % P, Int(b) % P, Int(c) % P, Int(d) % P;
    CongResidues(Int(a), Int(b), Int(c), Int(d));
    var x := FeMul(e, f);
    FinalProduct(Int(x), Int(e), Int(f), b' - a', d' - c');
    var y := FeMul(h, g);
    FinalProduct(Int(y), Int(h), Int(g), b' + a', d' + c');
    var z := FeMul(g, f);
    FinalProduct(Int(z), Int(g), Int(f), d' + c', d' - c');
    var t := FeMul(e, h);
    FinalProduct(Int(t), Int(e), Int(h), b' - a', b' + a');
    ReducedWithin(x); ReducedWithin(y); ReducedWithin(z); ReducedWithin(t);
    r := Point(x, y, z, t);
    CongIs(Int(x), (b' - a') * (d' - c'));
    CongIs(Int(y), (d' + c') * (b' + a'));
    CongIs(Int(z), (d' + c') * (d' - c'));
    CongIs(Int(t), (b' - a') * (b' + a'));
  }

  lemma CongResidues(a: int, b: int, c: int, d: int)
    ensures Cong(b - a, b % P - a % P) && Cong(b + a, b % P + a % P)
    ensures Cong(d - c, d % P - c % P) && Cong(d + c, d % P + c % P)
  {
    hide Cong;
    CongResidue(a); CongResidue(b); CongResidue(c); CongResidue(d);
    CongSum(b, b % P, a, a % P);
    CongSum(d, d % P, c, c % P);
  }
}
