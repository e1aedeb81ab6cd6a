/** Scalars modulo the group order L (core/ed25519_verify.c, lines 373-427). */
module ScalarOrder {
  import opened Types
  import opened Limbs
  import opened Field25519
  import opened Edwards
  import opened Ladder

  const L: int := 0x1000000000000000000000000000000014def9dea2f79cd65812631a5cf5d3ed
  const LOW: int := 0x14def9dea2f79cd65812631a5cf5d3ed
  const TOP248: int := 0x1_00000000000000000000000000000000000000000000000000000000000000

  const ORDER: seq<byte> := [
    0xed, 0xd3, 0xf5, 0x5c, 0x1a, 0x63, 0x12, 0x58,
    0xd6, 0x9c, 0xf7, 0xa2, 0xde, 0xf9, 0xde, 0x14,
    0x00, 0x00, 0x00, 0x00, 0x00, 0x00, 0x00, 0x00,
    0x00, 0x00, 0x00, 0x00, 0x00, 0x00, 0x00, 0x10]

  lemma LowValue()
    ensures Val(256, ORDER[..16]) == LOW
  {
    hide Val;
    var s: seq<int> := ORDER[..16];
    ValHorner(256, s, 15); ValHorner(256, s, 14); ValHorner(256, s, 13); ValHorner(256, s, 12);
    ValHorner(256, s, 11); ValHorner(256, s, 10); ValHorner(256, s, 9); ValHorner(256, s, 8);
    ValHorner(256, s, 7); ValHorner(256, s, 6); ValHorner(256, s, 5); ValHorner(256, s, 4);
    ValHorner(256, s, 3); ValHorner(256, s, 2); ValHorner(256, s, 1); ValHorner(256, s, 0);
    ValZeros(s[16..]);
    assert s[0..] == s;
  }

  lemma OrderValue()
    ensures Val(256, ORDER[..20]) == LOW
    ensures Val(256, ORDER) == L
  {
    hide Val, Pow;
    var s: seq<int> := ORDER;
    LowValue();
    ByteWeights();
    assert s[..20] == s[..16] + s[16..20];
    ValConcat(256, s[..16], s[16..20]);
    ValZeros(s[16..20]);
    ValTake(256, s, 31);
    assert s[..32] == s && s[..31] == s[..20] + s[20..31];
    ValConcat(256, s[..20], s[20..31]);
    ValZeros(s[20..31]);
  }

  lemma {:induction false} ValZeros(s: seq<int>)
    requires forall i :: 0 <= i < |s| ==> s[i] == 0
    ensures Val(256, s) == 0
  {
    if s != [] { ValZeros(s[1..]); }
  }

  lemma ByteWeights()
    ensures Pow(256, 0) == 1
    ensures Pow(256, 11) == 0x1_0000000000000000000000 && Pow(256, 15) == 0x1_000000000000000000000000000000
    ensures Pow(256, 20) == 0x1_0000000000000000000000000000000000000000
    ensures Pow(256, 31) == TOP248 && Pow(256, 32) == R256
  {
    assert Pow(256, 4) == 0x1_00000000;
    assert Pow(256, 3) == 0x1_000000;
    PowAdd(256, 4, 4);
    PowAdd(256, 8, 3);
    PowAdd(256, 11, 4);
    PowAdd(256, 15, 4);
    PowAdd(256, 19, 1);
    PowAdd(256, 20, 11);
    PowAdd(256, 31, 1);
  }

  ghost predicate Range(x: seq<int>, lo: int, hi: int, from: int, to: int) {
    forall k :: from <= k < to && 0 <= k < |x| ==> lo <= x[k] <= hi
  }

  lemma SmallProduct(a: int, d: int)
    requires -300 <= a <= 300 && 0 <= d < 256
    ensures -76800 <= a * d <= 76800
  {
    MulMono(d, a, 300);
    MulMono(d, -300, a);
  }

  /** A bound on the running carry of one row: it is back to one by the last columns. */
  function CarryBound(k: nat): int {
    if k <= 16 then 4864 else if k == 17 then 20 else 1
  }

  /** The carry out of column k: (x[j] + carry - 16 x[i] L[k] + 128) >> 8. */
  function CarryOut(t: int): int { (t + 128) / 256 }

  /** No column overflows, every digit is rebalanced to [-128, 127], and the carry stays bounded. */
  lemma ColumnBounds(k: nat, y: int, carry: int, xi: int)
    requires k < 20 && -128 <= y <= 255 && -129 <= xi <= 256
    requires -CarryBound(k) <= carry <= CarryBound(k)
    ensures var t := y + (carry - 16 * xi * ORDER[k]);
            && -0x20_0000 <= 16 * xi * ORDER[k] <= 0x20_0000
            && 16 * xi * ORDER[k] == 16 * (xi * ORDER[k])
            && -0x40_0000 <= t <= 0x40_0000
            && -CarryBound(k + 1) <= CarryOut(t) <= CarryBound(k + 1)
            && -128 <= t - CarryOut(t) * 256 <= 127
  {
    SmallProduct(xi, ORDER[k]);
    ghost var p := xi * ORDER[k];
    assert 16 * xi * ORDER[k] == 16 * p;
    assert k >= 16 ==> p == 0;
  }

  /** The value with the pending carry, after k columns of the row for x[i]. */
  ghost predicate RowState(x: seq<int>, carry: int, i: nat, k: nat, v: int, xi: int)
    requires 32 <= i && k <= 20
  {
    Val(256, x) + Pow(256, i - 32 + k) * carry == v - (16 * xi * Pow(256, i - 32)) * Val(256, ORDER[..k])
  }

  lemma RowStep(x: seq<int>, x': seq<int>, i: nat, k: nat, carry: int, c: int, v: int, xi: int)
    requires |x| == |x'| == 64 && 32 <= i < 64 && k < 20
    requires x' == x[i - 32 + k := x'[i - 32 + k]]
    requires x'[i - 32 + k] + 256 * c == x[i - 32 + k] + carry - 16 * (xi * ORDER[k])
    requires RowState(x, carry, i, k, v, xi)
    ensures RowState(x', c, i, k + 1, v, xi)
  {
    hide Val, Pow;
    var j := i - 32 + k;
    ValUpdate(256, x, j, x'[j] - x[j]);
    assert x' == x[j := x[j] + (x'[j] - x[j])];
    ValTake(256, ORDER, k);
    PowAdd(256, i - 32, k);
    PowSucc(j);
    RowAlgebra(Pow(256, i - 32), Pow(256, k), x[j], x'[j], carry, c, xi, ORDER[k], Val(256, ORDER[..k]));
  }

  lemma PowSucc(j: nat)
    ensures Pow(256, j + 1) == 256 * Pow(256, j)
  {
  }

  lemma RowAlgebra(u: int, w: int, y: int, y': int, carry: int, c: int, xi: int, d: int, s: int)
    requires y' + 256 * c == y + carry - 16 * (xi * d)
    ensures (u * w) * (y' - y) + (256 * (u * w)) * c - (u * w) * carry + (16 * xi * u) * (s + w * d) ==
              (16 * xi * u) * s
  {
    var t := u * w;
    assert t * (y' - y) + (256 * t) * c - t * carry == t * (y' - y + 256 * c - carry);
    assert y' - y + 256 * c - carry == -16 * (xi * d);
    assert (16 * xi * u) * (s + w * d) == (16 * xi * u) * s + (16 * xi * u) * (w * d);
    assert (16 * xi * u) * (w * d) == t * (16 * (xi * d));
  }

  /** The bounds on the digits before the row for x[i] is reduced. */
  ghost predicate Ready(x: seq<int>, i: nat) {
    && |x| == 64
    && Range(x, -129, 256, 0, i)
    && Range(x, -128, 255, 0, i - 12)
    && (forall k :: i <= k < 64 ==> x[k] == 0)
  }

  /** One column of a row. */
  method ReduceColumn(x: array<i64>, i: nat, k: nat, carry: i64, ghost v: int) returns (c: i64)
    requires x.Length == 64 && 32 <= i < 64 && k < 20 && -CarryBound(k) <= carry <= CarryBound(k)
    requires -128 <= x[i - 32 + k] <= 255 && -129 <= x[i] <= 256 && RowState(x[..], carry, i, k, v, x[i])
    modifies x
    ensures forall m :: 0 <= m < 64 && m != i - 32 + k ==> x[m] == old(x[m])
    ensures -128 <= x[i - 32 + k] <= 127 && -CarryBound(k + 1) <= c <= CarryBound(k + 1)
    ensures RowState(x[..], c, i, k + 1, v, x[i])
  {
    hide Val, Pow, CarryOut, RowState;
    ghost var s := x[..];
    var j := i - 32 + k;
    ColumnBounds(k, s[j], carry, x[i]);
    x[j] := x[j] + (carry - 16 * x[i] * ORDER[k]);
    c := CarryOut(x[j]);
    x[j] := x[j] - c * 256;
    assert x[..] == s[j := x[j]];
    RowStep(s, x[..], i, k, carry, c, v, s[i]);
  }

  /** One row: x[i] is replaced by its multiple of 2^256 modulo L, digit by digit. */
  method ReduceRow(x: array<i64>, i: nat)
    requires x.Length == 64 && 32 <= i < 64 && Ready(x[..], i + 1)
    modifies x
    ensures Ready(x[..], i)
    ensures Val(256, x[..]) == old(Val(256, x[..])) - (16 * old(x[i]) * Pow(256, i - 32)) * L
  {
    hide Val, Pow, CarryOut, RowState;
    ghost var v, xi, s0 := Val(256, x[..]), x[i], x[..];
    var carry: i64 := 0;
    RowStart(s0, i, v, xi);
    for k := 0 to 20
      invariant -CarryBound(k) <= carry <= CarryBound(k)
      invariant forall m :: 0 <= m < 64 && !(i - 32 <= m < i - 32 + k) ==> x[m] == s0[m]
      invariant forall m :: i - 32 <= m < i - 32 + k ==> -128 <= x[m] <= 127
      invariant RowState(x[..], carry, i, k, v, xi)
    {
      assert x[i - 32 + k] == s0[i - 32 + k];
      carry := ReduceColumn(x, i, k, carry, v);
    }
    ghost var s1 := x[..];
    x[i - 12] := x[i - 12] + carry;
    x[i] := 0;
    RowEnd(s1, x[..], i, carry, v, xi);
  }

  lemma RowStart(x: seq<int>, i: nat, v: int, xi: int)
    requires |x| == 64 && 32 <= i < 64 && v == Val(256, x)
    ensures RowState(x, 0, i, 0, v, xi)
  {
    assert ORDER[..0] == [];
  }

  lemma RowEnd(s: seq<int>, x: seq<int>, i: nat, carry: int, v: int, xi: int)
    requires |s| == |x| == 64 && 32 <= i < 64 && s[i] == xi
    requires x == s[i - 12 := s[i - 12] + carry][i := 0]
    requires RowState(s, carry, i, 20, v, xi)
    ensures Val(256, x) == v - (16 * xi * Pow(256, i - 32)) * L
  {
    hide Val, Pow;
    ValUpdate(256, s, i - 12, carry);
    var t := s[i - 12 := s[i - 12] + carry];
    ValUpdate(256, t, i, -xi);
    assert x == t[i := t[i] + -xi];
    OrderValue();
    PowAdd(256, i - 32, 32);
    ByteWeights();
    var u := Pow(256, i - 32);
    assert (u * R256) * -xi == -(16 * xi * u) * (R256 / 16) by { RowTop(u, xi); }
    assert (16 * xi * u) * L == (16 * xi * u) * LOW + (16 * xi * u) * (R256 / 16) by { Distribute(16 * xi * u); }
  }

  lemma RowTop(u: int, xi: int)
    ensures (u * R256) * -xi == -(16 * xi * u) * (R256 / 16)
  {
    var z := xi * u;
    assert (u * R256) * -xi == -(z * R256);
    assert 16 * xi * u == 16 * z;
  }

  lemma Distribute(z: int)
    ensures z * L == z * LOW + z * (R256 / 16)
  {
  }

  /** Subtract q L with floor carries, q = x[31] >> 4; digits 0..31 become bytes. */
  method SubtractQuotient(x: array<i64>) returns (carry: i64)
    requires x.Length == 64 && Ready(x[..], 32)
    modifies x
    ensures Digits(256, x[..32])
    ensures forall k :: 32 <= k < 64 ==> x[k] == 0
    ensures Val(256, x[..32]) == old(Val(256, x[..32])) - old(x[31]) / 16 * L - R256 * carry
    ensures carry == 0 || (carry == -1 && Val(256, x[..32]) + L >= R256)
  {
    hide Val, Pow, QuotientState;
    ghost var s0 := x[..32];
    ghost var q := x[31] / 16;
    carry := 0;
    QuotientStart(s0, q);
    for j := 0 to 32
      invariant -20 <= carry <= 20
      invariant forall k :: 0 <= k < j ==> 0 <= x[k] < 256
      invariant forall k :: j <= k < 32 ==> x[k] == s0[k]
      invariant forall k :: 32 <= k < 64 ==> x[k] == 0
      invariant QuotientState(x[..32], carry, j, Val(256, s0), q)
    {
      ghost var s, c0 := x[..32], carry;
      assert x[31] == s0[31] && -129 <= s0[31] <= 256 && -129 <= s0[j] <= 256;
      QuotientBounds(s0[j], carry, x[31] / 16, j);
      x[j] := x[j] + (carry - x[31] / 16 * ORDER[j]);
      carry := x[j] / 256;
      x[j] := x[j] % 256;
      assert x[..32] == s[j := x[j]];
      QuotientStep(s, x[..32], j, c0, carry, Val(256, s0), q);
    }
    QuotientEnd(s0, x[..32], carry);
  }

  ghost predicate QuotientState(x: seq<int>, carry: int, j: nat, v: int, q: int)
    requires j <= 32
  {
    Val(256, x) + Pow(256, j) * carry == v - q * Val(256, ORDER[..j])
  }

  lemma QuotientStart(s: seq<int>, q: int)
    ensures QuotientState(s, 0, 0, Val(256, s), q)
  {
    assert ORDER[..0] == [];
  }

  lemma QuotientBounds(y: int, c0: int, q: int, j: nat)
    requires -129 <= y <= 256 && -20 <= c0 <= 20 && -9 <= q <= 16 && j < 32
    ensures -0x2000 <= q * ORDER[j] <= 0x2000
    ensures -20 <= (y + (c0 - q * ORDER[j])) / 256 <= 20
  {
    MulMono(ORDER[j], q, 16);
    MulMono(ORDER[j], -9, q);
  }

  lemma QuotientStep(s: seq<int>, x: seq<int>, j: nat, c0: int, c: int, v: int, q: int)
    requires |s| == |x| == 32 && j < 32
    requires x == s[j := x[j]]
    requires x[j] + 256 * c == s[j] + (c0 - q * ORDER[j])
    requires QuotientState(s, c0, j, v, q)
    ensures QuotientState(x, c, j + 1, v, q)
  {
    hide Val, Pow;
    ValUpdate(256, s, j, x[j] - s[j]);
    assert x == s[j := s[j] + (x[j] - s[j])];
    ValTake(256, ORDER, j);
    PowSucc(j);
    QuotientAlgebra(Pow(256, j), x[j], s[j], c0, c, q, ORDER[j], Val(256, ORDER[..j]));
  }

  lemma QuotientEnd(s: seq<int>, x: seq<int>, carry: int)
    requires |s| == |x| == 32 && Digits(256, x)
    requires forall k :: 0 <= k < 32 ==> -129 <= s[k] <= 256
    requires QuotientState(x, carry, 32, Val(256, s), s[31] / 16)
    ensures Val(256, x) == Val(256, s) - s[31] / 16 * L - R256 * carry
    ensures carry == 0 || (carry == -1 && Val(256, x) + L >= R256)
  {
    hide Val, Pow;
    assert ORDER[..32] == ORDER;
    OrderValue();
    ByteWeights();
    FinalCarry(s, x, carry);
  }

  lemma QuotientAlgebra(w: int, y': int, y: int, c0: int, c: int, q: int, d: int, s: int)
    requires y' + 256 * c == y + (c0 - q * d)
    ensures w * (y' - y) + (256 * w) * c - w * c0 + q * (s + w * d) == q * s
  {
    assert w * (y' - y) + (256 * w) * c - w * c0 == w * (y' - y + 256 * c - c0);
    assert q * (s + w * d) == q * s + w * (q * d);
  }

  /** A tight bound for digits in [-129, 256]. */
  lemma {:induction false} DigitSpread(s: seq<int>)
    requires forall k :: 0 <= k < |s| ==> -129 <= s[k] <= 256
    ensures -129 * (Pow(256, |s|) - 1) <= 255 * Val(256, s) <= 256 * (Pow(256, |s|) - 1)
  {
    if s != [] { DigitSpread(s[1..]); }
  }

  /** The carry out of the quotient pass is 0 or -1, and in the second case adding L
      brings the value back above zero. */
  lemma FinalCarry(s: seq<int>, x: seq<int>, carry: int)
    requires |s| == |x| == 32 && Digits(256, x)
    requires forall k :: 0 <= k < 32 ==> -129 <= s[k] <= 256
    requires Val(256, x) + R256 * carry == Val(256, s) - s[31] / 16 * L
    ensures carry == 0 || (carry == -1 && Val(256, x) + L >= R256)
  {
    hide Val, Pow;
    ByteWeights();
    ValBound(256, x);
    ValTake(256, s, 31);
    assert s[..32] == s;
    DigitSpread(s[..31]);
  }

  /** x[0..32] as the last two loops leave it, carried into bytes. */
  method CarryBytes(x: array<i64>) returns (r: seq<byte>)
    requires x.Length == 64 && (forall k :: 0 <= k < 33 ==> -0x1000 <= x[k] <= 0x1000)
    modifies x
    ensures |r| == 32
    ensures Uint(r) == old(Val(256, x[..33])) % R256
  {
    hide Val, Pow;
    ghost var v, s0 := Val(256, x[..33]), x[..33];
    SettledNone(s0);
    var o := new byte[32];
    for i := 0 to 32
      invariant forall k :: 0 <= k < i ==> o[k] == x[k] % 256
      invariant forall k :: i < k < 33 ==> x[k] == s0[k]
      invariant -0x1020 <= x[i] <= 0x1020
      invariant Val(256, Settled(x[..33], i)) == v
    {
      ghost var s := x[..33];
      assert -0x1000 <= s0[i + 1] <= 0x1000;
      x[i + 1] := x[i + 1] + x[i] / 256;
      o[i] := x[i] % 256;
      SettleStep(s, x[..33], i);
    }
    r := o[..];
    assert Settled(x[..33], 32) == r + [x[32]];
    SettleEnd(r, x[32], v);
  }

  /** The digits already emitted, then the ones still pending. */
  function Settled(x: seq<int>, i: nat): (t: seq<int>)
    requires i <= |x|
    ensures |t| == |x|
  {
    seq(|x|, k requires 0 <= k < |x| => if k < i then x[k] % 256 else x[k])
  }

  lemma SettleStep(s: seq<int>, x: seq<int>, i: nat)
    requires |s| == 33 && i < 32 && x == s[i + 1 := s[i + 1] + s[i] / 256]
    ensures Val(256, Settled(x, i + 1)) == Val(256, Settled(s, i))
  {
    var t, k := Settled(s, i), s[i] / 256;
    CarryMoves(256, t, i, k);
    assert Settled(x, i + 1) == t[i := t[i] - 256 * k][i + 1 := t[i + 1] + k];
  }

  lemma SettleEnd(r: seq<byte>, top: int, v: int)
    requires |r| == 32 && Val(256, r + [top]) == v
    ensures Uint(r) == v % R256
  {
    ValSnoc(256, r, top);
    ByteWeights();
    ValBound(256, r);
    DivModUnique(v, R256, top, Uint(r));
  }

  lemma SettledNone(x: seq<int>)
    ensures Settled(x, 0) == x
  {
  }

  /** mod_l: the 32 bytes are congruent modulo L to the 64 input bytes; no int64 overflows. */
  method ModL(x: array<i64>) returns (r: seq<byte>)
    requires x.Length == 64 && Digits(256, x[..])
    modifies x
    ensures |r| == 32 && Uint(r) % L == old(Val(256, x[..])) % L
  {
    hide Val, Pow;
    ghost var v := Val(256, x[..]);
    for i := 64 downto 32
      invariant Ready(x[..], i)
      invariant Val(256, x[..]) % L == v % L
    {
      ghost var s, xi := Val(256, x[..]), x[i];
      ReduceRow(x, i);
      ModShift(s, -(16 * xi * Pow(256, i - 32)), L);
    }
    ghost var s1 := x[..];
    assert s1[..32] == x[..32];
    UpperZero(s1);
    ghost var q := x[31] / 16;
    var carry := SubtractQuotient(x);
    r := AddBack(x, carry);
    ModShift(Val(256, s1), -q - (if carry == 0 then 0 else -1), L);
  }

  lemma UpperZero(s: seq<int>)
    requires |s| == 64 && forall k :: 32 <= k < 64 ==> s[k] == 0
    ensures Val(256, s) == Val(256, s[..32])
  {
    hide Val, Pow;
    assert s == s[..32] + s[32..];
    ValConcat(256, s[..32], s[32..]);
    ValZeros(s[32..]);
  }

  /** The two last loops: x[j] -= carry L[j], then the carries into bytes. */
  method AddBack(x: array<i64>, carry: i64) returns (r: seq<byte>)
    requires x.Length == 64 && Digits(256, x[..32]) && x[32] == 0
    requires carry == 0 || (carry == -1 && Val(256, x[..32]) + L >= R256)
    modifies x
    ensures |r| == 32
    ensures Uint(r) == old(Val(256, x[..32])) + (if carry == 0 then 0 else L - R256)
  {
    hide Val, Pow;
    ghost var s := x[..32];
    for j := 0 to 32
      invariant x[32] == 0
      invariant forall k :: 0 <= k < j ==> -0x1000 <= x[k] <= 0x1000 && x[k] == s[k] - carry * ORDER[k]
      invariant forall k :: j <= k < 32 ==> x[k] == s[k]
    {
      var d: i64 := carry * ORDER[j];
      assert d == if carry == 0 then 0 else 0 - (ORDER[j] as int);
      x[j] := x[j] - d;
    }
    AddOrder(s, x[..33], carry);
    ghost var v := Val(256, x[..33]);
    r := CarryBytes(x);
    AddBackValue(Val(256, s), v, carry, s);
  }

  lemma AddBackValue(u: int, v: int, carry: int, s: seq<int>)
    requires |s| == 32 && Digits(256, s) && u == Val(256, s) && v == u - carry * L
    requires carry == 0 || (carry == -1 && u + L >= R256)
    ensures v % R256 == u + (if carry == 0 then 0 else L - R256)
  {
    ByteWeights();
    ValBound(256, s);
  }

  lemma AddOrder(s: seq<int>, x: seq<int>, carry: int)
    requires |s| == 32 && |x| == 33 && x[32] == 0
    requires forall k :: 0 <= k < 32 ==> x[k] == s[k] - carry * ORDER[k]
    ensures Val(256, x) == Val(256, s) - carry * L
  {
    hide Val, Pow;
    assert x == x[..32] + [0];
    ValSnoc(256, x[..32], 0);
    LinearBytes(s, ORDER, x[..32], -carry);
    OrderValue();
  }

  lemma {:induction false} LinearBytes(s: seq<int>, t: seq<int>, u: seq<int>, c: int)
    requires |s| == |t| == |u|
    requires forall i :: 0 <= i < |s| ==> u[i] == s[i] + c * t[i]
    ensures Val(256, u) == Val(256, s) + c * Val(256, t)
  {
    if s != [] {
      LinearBytes(s[1..], t[1..], u[1..], c);
      var x, y := Val(256, s[1..]), Val(256, t[1..]);
      assert 256 * (x + c * y) == 256 * x + c * (256 * y);
    }
  }

  // ---- s_is_canonical ----

  /** s_is_canonical accepts exactly the little-endian integers below L. */
  method SIsCanonical(s: seq<byte>) returns (ok: bool)
    requires |s| == 32
    ensures ok <==> Uint(s) < L
  {
    hide Val, Pow;
    var gt, lt := false, false;
    ValZeros(s[32..]);
    ValZeros(ORDER[32..]);
    for i := 32 downto 0
      invariant !(gt && lt)
      invariant lt <==> Val(256, s[i..]) < Val(256, ORDER[i..])
      invariant gt <==> Val(256, s[i..]) > Val(256, ORDER[i..])
    {
      var si, li := s[i], ORDER[i];
      ValHorner(256, s, i);
      ValHorner(256, ORDER, i);
      gt := gt || (!lt && si > li);
      lt := lt || (!gt && si < li);
    }
    assert s[0..] == s && ORDER[0..] == ORDER;
    OrderValue();
    ok := lt && !gt;
  }
}
