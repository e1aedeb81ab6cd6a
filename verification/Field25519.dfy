/** Arithmetic modulo p = 2^255 - 19 on 16 signed limbs of 16 bits held in int64
    (core/ed25519_verify.c, lines 34-215). */
module Field25519 {
  import opened Types
  import opened Limbs

  const P: int := 0x7fffffffffffffffffffffffffffffffffffffffffffffffffffffffffffffed
  const R256: int := 0x1_0000000000000000000000000000000000000000000000000000000000000000

  /** gf: sixteen int64 limbs. */
  type Gf = s: seq<i64> | |s| == 16 witness seq(16, _ => 0)

  function Int(a: Gf): int { Val(65536, a) }

  ghost predicate Cong(x: int, y: int) { exists k :: x - y == Copies(P, k) }

  /** k * n, by counting. */
  function Copies(n: int, k: int): int
    decreases if k < 0 then -k else k
  {
    if k == 0 then 0 else if k > 0 then Copies(n, k - 1) + n else Copies(n, k + 1) - n
  }

  lemma {:induction false} CopiesIs(n: int, k: int)
    ensures Copies(n, k) == k * n
    decreases if k < 0 then -k else k
  {
    if k > 0 {
      CopiesIs(n, k - 1);
      assert (k - 1) * n == k * n - n;
    } else if k < 0 {
      CopiesIs(n, k + 1);
      assert (k + 1) * n == k * n + n;
    }
  }

  /** Congruent integers are those with the same residue. */
  lemma CongIs(x: int, y: int)
    ensures Cong(x, y) <==> x % P == y % P
  {
    if Cong(x, y) {
      var k :| x - y == Copies(P, k);
      CopiesIs(P, k);
      ModShift(y, k, P);
    }
    if x % P == y % P {
      CopiesIs(P, x / P - y / P);
      assert x - y == Copies(P, x / P - y / P);
    }
  }

  /** Every limb is below m in magnitude. */
  ghost predicate Within(s: seq<int>, m: int) {
    forall i :: 0 <= i < |s| ==> -m < s[i] < m
  }

  lemma Weights()
    ensures Pow(65536, 15) == 0x1_000000000000000000000000000000000000000000000000000000000000
    ensures Pow(65536, 16) == R256
  {
    assert Pow(65536, 4) == 0x1_0000000000000000;
    PowAdd(65536, 4, 4);
    PowAdd(65536, 8, 4);
    PowAdd(65536, 12, 3);
    PowAdd(65536, 15, 1);
  }

  // ---- congruence ----

  lemma CongShift(x: int, k: int)
    ensures Cong(x + k * P, x)
  {
    CopiesIs(P, k);
    assert (x + k * P) - x == Copies(P, k);
  }

  lemma Same(x: int)
    ensures Cong(x, x)
  {
    assert x - x == Copies(P, 0);
  }

  lemma CongSym(x: int, y: int)
    requires Cong(x, y)
    ensures Cong(y, x)
  {
    CongIs(x, y);
    CongIs(y, x);
  }

  lemma CongTrans(x: int, y: int, z: int)
    requires Cong(x, y) && Cong(y, z)
    ensures Cong(x, z)
  {
    var k :| x - y == Copies(P, k);
    var l :| y - z == Copies(P, l);
    CopiesIs(P, k); CopiesIs(P, l); CopiesIs(P, k + l);
    assert x - z == Copies(P, k + l);
  }

  lemma CongSum(x: int, x': int, y: int, y': int)
    requires Cong(x, x') && Cong(y, y')
    ensures Cong(x + y, x' + y') && Cong(x - y, x' - y')
  {
    var k :| x - x' == Copies(P, k);
    var l :| y - y' == Copies(P, l);
    CopiesIs(P, k); CopiesIs(P, l); CopiesIs(P, k + l); CopiesIs(P, k - l);
    assert (x + y) - (x' + y') == Copies(P, k + l);
    assert (x - y) - (x' - y') == Copies(P, k - l);
  }

  lemma CongMul(x: int, x': int, y: int, y': int)
    requires Cong(x, x') && Cong(y, y')
    ensures Cong(x * y, x' * y')
  {
    var k :| x - x' == Copies(P, k);
    var l :| y - y' == Copies(P, l);
    CopiesIs(P, k); CopiesIs(P, l); CopiesIs(P, k * y + x' * l);
    ProductApart(x, x', y, y', P, k, l);
    assert x * y - x' * y' == Copies(P, k * y + x' * l);
  }

  lemma ProductApart(x: int, x': int, y: int, y': int, m: int, k: int, l: int)
    requires x - x' == k * m && y - y' == l * m
    ensures x * y - x' * y' == (k * y + x' * l) * m
  {
    assert x * y - x' * y' == (x - x') * y + x' * (y - y');
    assert (k * m) * y == (k * y) * m && x' * (l * m) == (x' * l) * m;
  }

  lemma CongResidue(x: int)
    ensures Cong(x % P, x) && Cong(x, x % P)
  {
    CongIs(x % P, x);
    CongIs(x, x % P);
  }

  lemma ModShift(x: int, k: int, m: int)
    requires m > 0
    ensures (x + k * m) % m == x % m
  {
    var q, r := x / m, x % m;
    assert x + k * m == (q + k) * m + r by { assert x == q * m + r; }
    DivModUnique(x + k * m, m, q + k, r);
  }

  lemma DivModUnique(x: int, m: int, q: int, r: int)
    requires m > 0 && x == q * m + r && 0 <= r < m
    ensures x / m == q && x % m == r
  {
    var d := x / m - q;
    assert x == (x / m) * m + x % m;
    assert d * m == r - x % m by { assert d * m == (x / m) * m - q * m; }
    MulApart(d, m);
  }

  /** Equal residues are a multiple of the modulus apart. */
  lemma Quotients(x: int, x': int, m: int) returns (k: int)
    requires m > 0 && x % m == x' % m
    ensures x == x' + k * m
  {
    k := x / m - x' / m;
    assert k * m == (x / m) * m - (x' / m) * m;
  }

  lemma ModNegate(x: int, m: int)
    requires m > 0
    ensures (0 - x) % m == if x % m == 0 then 0 else m - x % m
  {
    var q, r := x / m, x % m;
    assert x == q * m + r;
    if r == 0 {
      assert 0 - x == (-q) * m;
      DivModUnique(0 - x, m, -q, 0);
    } else {
      assert 0 - x == (-q - 1) * m + (m - r);
      DivModUnique(0 - x, m, -q - 1, m - r);
    }
  }

  lemma MulApart(d: int, m: int)
    requires m > 0
    ensures d >= 1 ==> d * m >= m
    ensures d <= -1 ==> d * m <= -m
  {
  }

  // ---- car25519 ----

  /** What one carry pass computes: the value modulo 2^256 plus 38 times what
      overflowed, since 2^256 = 38 modulo p. */
  function Folded(v: int): int { v % R256 + 38 * (v / R256) }

  lemma FoldedCong(v: int)
    ensures Cong(Folded(v), v)
  {
    var k := v / R256;
    assert Folded(v) == v + (-2 * k) * P;
    CongShift(v, -2 * k);
  }

  /** One in-place carry pass. Limbs 1..15 become proper digits; limb 0 is a digit
      plus 38 times the top carry. No int64 operation overflows. */
  method Car25519(o: array<i64>)
    requires o.Length == 16 && Within(o[..], 0x40_0000_0000_0000)
    modifies o
    ensures Int(o[..]) == Folded(old(Int(o[..])))
    ensures Digits(65536, o[1..])
    ensures 0 <= o[0] - 38 * (old(Int(o[..])) / R256) < 65536
  {
    hide Val, Pow;
    ghost var v := Int(o[..]);
    ghost var start := o[..];
    ghost var top := 0;
    for i := 0 to 16
      invariant i < 16 ==> Int(o[..]) == v
      invariant forall k :: 1 <= k < i ==> 0 <= o[k] < 65536
      invariant 0 < i < 16 ==> 0 <= o[0] < 65536
      invariant forall k :: i < k < 16 ==> o[k] == start[k]
      invariant i < 16 ==> -0x80_0000_0000_0000 < o[i] < 0x80_0000_0000_0000
      invariant i == 16 ==> Int(o[..]) == v - R256 * top + 38 * top
      invariant i == 16 ==> 0 <= o[0] - 38 * top < 65536
    {
      ghost var s := o[..];
      o[i] := o[i] + 65536;
      var c: i64 := o[i] / 65536;
      ghost var k := c - 1;
      assert s[i] - 65536 * k == o[i] - 65536 * c;
      var j := if i < 15 then i + 1 else 0;
      var d: i64 := c - 1 + (if i == 15 then 37 * (c - 1) else 0);
      o[j] := o[j] + d;
      o[i] := o[i] - 65536 * c;
      assert o[..] == s[i := s[i] - 65536 * k][j := s[j] + d];
      if i < 15 {
        CarryMoves(65536, s, i, k);
      } else {
        CarryTop(s, k);
        top := k;
      }
    }
    TopCarry(o[..], v, top);
  }

  lemma CarryTop(s: seq<int>, k: int)
    requires |s| == 16
    ensures Val(65536, s[15 := s[15] - 65536 * k][0 := s[0] + 38 * k]) == Val(65536, s) - R256 * k + 38 * k
  {
    var t := s[15 := s[15] + -65536 * k];
    ValUpdate(65536, s, 15, -65536 * k);
    ValUpdate(65536, t, 0, 38 * k);
    Weights();
  }

  /** The carry out of the top limb is the value divided by 2^256. */
  lemma TopCarry(s: seq<int>, v: int, top: int)
    requires |s| == 16 && Digits(65536, s[1..]) && 0 <= s[0] - 38 * top < 65536
    requires Val(65536, s) == v - R256 * top + 38 * top
    ensures v / R256 == top && Val(65536, s) == Folded(v)
  {
    var t := s[0 := s[0] + -38 * top];
    ValUpdate(65536, s, 0, -38 * top);
    assert Digits(65536, t) by { assert t[1..] == s[1..]; assert forall i :: 1 <= i < 16 ==> t[i] == s[1..][i - 1]; }
    ValBound(65536, t);
    Weights();
    DivModUnique(v, R256, top, Val(65536, t));
  }

  // ---- fe_add, fe_sub, fe_mul ----

  lemma {:induction false} ValLinear(s: seq<int>, t: seq<int>, u: seq<int>, c: int)
    requires |s| == |t| == |u|
    requires forall i :: 0 <= i < |s| ==> u[i] == s[i] + c * t[i]
    ensures Val(65536, u) == Val(65536, s) + c * Val(65536, t)
  {
    if s != [] {
      ValLinear(s[1..], t[1..], u[1..], c);
      var x, y := Val(65536, s[1..]), Val(65536, t[1..]);
      assert 65536 * (x + c * y) == 65536 * x + c * (65536 * y);
    }
  }

  function FeAdd(a: Gf, b: Gf): (r: Gf)
    requires Within(a, 0x100_0000) && Within(b, 0x100_0000)
    ensures Int(r) == Int(a) + Int(b)
  {
    var r := seq(16, i requires 0 <= i < 16 => a[i] + b[i]);
    ValLinear(a, b, r, 1);
    r
  }

  function FeSub(a: Gf, b: Gf): (r: Gf)
    requires Within(a, 0x100_0000) && Within(b, 0x100_0000)
    ensures Int(r) == Int(a) - Int(b)
  {
    var r := seq(16, i requires 0 <= i < 16 => a[i] - b[i]);
    ValLinear(a, b, r, -1);
    r
  }

  /** The limbs every fe_mul returns. */
  ghost predicate Reduced(a: Gf) {
    -38 <= a[0] <= 65573 && Digits(65536, a[1..])
  }

  lemma ReducedWithin(a: Gf)
    requires Reduced(a)
    ensures Within(a, 65574)
  {
    assert forall i :: 1 <= i < 16 ==> a[i] == a[1..][i - 1];
  }

  lemma ProductBound(x: int, y: int)
    requires -0x4_0000 < x < 0x4_0000 && -0x4_0000 < y < 0x4_0000
    ensures -0x10_0000_0000 <= x * y <= 0x10_0000_0000
  {
    if y >= 0 {
      MulMono(y, x, 0x4_0000);
      MulMono(y, -0x4_0000, x);
    } else {
      MulMono(-y, x, 0x4_0000);
      MulMono(-y, -0x4_0000, x);
      assert -y * x == -(x * y);
    }
  }

  /** Schoolbook product of two limb vectors, column by column. Each column holds
      at most 16 products, so it stays far below 2^63. */
  method Columns(a: Gf, b: Gf) returns (t: array<i64>)
    requires Within(a, 0x4_0000) && Within(b, 0x4_0000)
    ensures fresh(t) && t.Length == 31
    ensures Val(65536, t[..]) == Int(a) * Int(b)
    ensures forall k :: 0 <= k < 31 ==> -0x100_0000_0000 <= t[k] <= 0x100_0000_0000
  {
    hide Val, Pow;
    t := new i64[31](_ => 0);
    ValZero(t[..]);
    ValZero(a[..0]);
    for i := 0 to 16
      invariant Val(65536, t[..]) == Val(65536, a[..i]) * Int(b)
      invariant forall k :: 0 <= k < 31 ==> -0x10_0000_0000 * i <= t[k] <= 0x10_0000_0000 * i
    {
      ValZero(b[..0]);
      ghost var va, w := Val(65536, a[..i]) * Int(b), Pow(65536, i);
      for j := 0 to 16
        invariant Val(65536, t[..]) == va + (w * a[i]) * Val(65536, b[..j])
        invariant forall k :: 0 <= k < i + j && k < 31 ==> -0x10_0000_0000 * (i + 1) <= t[k] <= 0x10_0000_0000 * (i + 1)
        invariant forall k :: i + j <= k < 31 ==> -0x10_0000_0000 * i <= t[k] <= 0x10_0000_0000 * i
      {
        ghost var s := t[..];
        ProductBound(a[i], b[j]);
        var x: i64 := a[i] * b[j];
        t[i + j] := t[i + j] + x;
        assert t[..] == s[i + j := s[i + j] + x];
        ValUpdate(65536, s, i + j, x);
        ValTake(65536, b, j);
        PowAdd(65536, i, j);
        Column(w, Pow(65536, j), a[i], b[j], Val(65536, b[..j]));
      }
      assert b[..16] == b;
      ValTake(65536, a, i);
      RowDone(Val(65536, a[..i]), w, a[i], Int(b));
    }
    assert a[..16] == a;
  }

  lemma {:induction false} ValZero(s: seq<int>)
    requires forall i :: 0 <= i < |s| ==> s[i] == 0
    ensures Val(65536, s) == 0
  {
    if s != [] { ValZero(s[1..]); }
  }

  lemma Column(wi: int, wj: int, x: int, y: int, v: int)
    ensures (wi * x) * v + (wi * wj) * (x * y) == (wi * x) * (v + wj * y)
  {
    assert (wi * wj) * (x * y) == (wi * x) * (wj * y);
  }

  lemma RowDone(v: int, w: int, x: int, y: int)
    ensures v * y + (w * x) * y == (v + w * x) * y
  {
  }

  /** The columns above 2^256 are added back with weight 38. */
  method FoldUpper(t: array<i64>) returns (o: array<i64>)
    requires t.Length == 31
    requires forall k :: 0 <= k < 31 ==> -0x100_0000_0000 <= t[k] <= 0x100_0000_0000
    modifies t
    ensures fresh(o) && o.Length == 16
    ensures Cong(Int(o[..]), old(Val(65536, t[..])))
    ensures forall k :: 0 <= k < 16 ==> -0x1_0000_0000_0000 < o[k] < 0x1_0000_0000_0000
  {
    hide Val, Pow;
    ghost var s, hi := t[..], t[16..];
    for i := 0 to 15
      invariant forall k :: 0 <= k < i ==> t[k] == s[k] + 38 * hi[k]
      invariant forall k :: i <= k < 31 ==> t[k] == s[k]
    {
      assert t[i + 16] == hi[i];
      t[i] := t[i] + 38 * t[i + 16];
    }
    label F:
    o := new i64[16];
    for i := 0 to 16
      invariant t[..] == old@F(t[..])
      invariant forall k :: 0 <= k < i ==> o[k] == t[k]
    {
      o[i] := t[i];
    }
    FoldColumns(s, o[..]);
  }

  /** fe_mul: the product modulo p, with limbs back in range whatever the operands. */
  method FeMul(a: Gf, b: Gf) returns (r: Gf)
    requires Within(a, 0x4_0000) && Within(b, 0x4_0000)
    ensures Cong(Int(r), Int(a) * Int(b))
    ensures Reduced(r)
  {
    hide Val, Pow;
    var t := Columns(a, b);
    var o := FoldUpper(t);
    ghost var v := Int(o[..]);
    ValMagnitude(65536, o[..], 0x1_0000_0000_0000);
    Weights();
    Car25519(o);
    FoldedCong(v);
    ghost var v1 := Folded(v);
    TopWithin(o[..], v, 0x1_0000_0000_0000);
    Car25519(o);
    FoldedCong(v1);
    CongTrans(Folded(v1), v1, v);
    CongTrans(Folded(v1), v, Int(a) * Int(b));
    r := o[..];
    assert r[1..] == o[1..];
  }

  /** Folding the upper columns in with weight 38 keeps the value modulo p. */
  lemma FoldColumns(s: seq<int>, o: seq<int>)
    requires |s| == 31 && |o| == 16
    requires forall k :: 0 <= k < 15 ==> o[k] == s[k] + 38 * s[16..][k]
    requires o[15] == s[15]
    ensures Cong(Val(65536, o), Val(65536, s))
  {
    hide Val, Pow;
    var lo, hi := s[..16], s[16..];
    assert s == lo + hi;
    ValConcat(65536, lo, hi);
    Weights();
    var hi' := hi + [0];
    ValSnoc(65536, hi, 0);
    ValLinear(lo, hi', o, 38);
    var h := Val(65536, hi);
    assert Val(65536, o) == Val(65536, s) + (-2 * h) * P;
    CongShift(Val(65536, s), -2 * h);
  }

  /** After a pass over |v| <= m 2^256 the value is within 38 m of [0, 2^256). */
  lemma TopWithin(s: seq<int>, v: int, m: int)
    requires |s| == 16 && Digits(65536, s[1..]) && 0 <= s[0] - 38 * (v / R256) < 65536
    requires 0 < m <= 0x1_0000_0000_0000 && -(m * R256) <= v <= m * R256
    ensures -m <= v / R256 <= m
    ensures Within(s, 0x40_0000_0000_0000)
    ensures -1 <= Folded(v) / R256 <= 1
  {
    assert forall i :: 1 <= i < 16 ==> s[i] == s[1..][i - 1];
  }
}
