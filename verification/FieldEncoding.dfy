/** The 32-byte little-endian encoding of field elements (core/ed25519_verify.c, lines 100-162). */
module FieldEncoding {
  import opened Types
  import opened Limbs
  import opened Field25519

  /** Masking limb i and moving its borrow to limb i + 1 keeps the value. */
  lemma BorrowStep(m: seq<int>, u: seq<int>, i: nat, br: int, y: int)
    requires i + 1 < |u| && i < |m| && m[..i] == u[..i]
    requires u[i] == m[i] + 65536 * br && u[i + 1] == y - br
    ensures Val(65536, u[..i + 2]) == Val(65536, m[..i + 1]) + Pow(65536, i + 1) * y
  {
    ValTake(65536, m, i);
    ValTake(65536, u, i);
    ValTake(65536, u, i + 1);
    BorrowWeight(Pow(65536, i), m[i], br, y);
  }

  lemma BorrowWeight(w: int, x: int, br: int, y: int)
    ensures w * (x + 65536 * br) + (65536 * w) * (y - br) == w * x + (65536 * w) * y
  {
  }

  lemma PrefixStep(t: seq<int>, i: nat)
    requires 0 < i < |t|
    ensures Val(65536, t[..i]) - (Pow(65536, i) - 19) + Pow(65536, i) * (t[i] - 0xffff)
         == Val(65536, t[..i + 1]) - (Pow(65536, i + 1) - 19)
  {
    ValTake(65536, t, i);
    var w := Pow(65536, i);
    assert Pow(65536, i + 1) == 65536 * w;
    assert w * (t[i] - 0xffff) == w * t[i] - 0xffff * w;
  }

  /** Limb i of t - p, given the limbs below it; limb i - 1 is masked to a digit. */
  method BorrowLimb(m: array<i64>, i: nat, x: u16, pl: u16)
    requires m.Length == 16 && 1 <= i < 16
    requires Digits(65536, m[..i - 1]) && -65536 <= m[i - 1] < 65536
    modifies m
    ensures Digits(65536, m[..i]) && -65536 <= m[i] < 65536
    ensures Val(65536, m[..i + 1]) == old(Val(65536, m[..i])) + Pow(65536, i) * (x - pl)
  {
    ghost var s := m[..];
    var br: i64 := (m[i - 1] / 65536) % 2;
    m[i] := x - pl - br;
    m[i - 1] := m[i - 1] % 65536;
    BorrowStep(s, m[..], i - 1, br, x - pl);
    assert s[..i] == old(m[..i]) && m[..][..i + 1] == m[..i + 1];
    assert forall k :: 0 <= k < i - 1 ==> m[..i][k] == s[..i - 1][k];
  }

  /** t - p with borrow, limb by limb; all but the top limb are masked to digits. */
  method TrialSubtract(t: array<i64>) returns (m: array<i64>)
    requires t.Length == 16 && Digits(65536, t[..])
    ensures fresh(m) && m.Length == 16 && Digits(65536, m[..15]) && -65536 <= m[15] < 65536
    ensures Int(m[..]) == Int(t[..]) - P
  {
    hide Val, Pow;
    ghost var s := t[..];
    m := new i64[16];
    m[0] := t[0] - 0xffed;
    FirstLimb(s, m[..]);
    assert m[..][..1] == m[..1];
    for i := 1 to 15
      invariant t[..] == s
      invariant Digits(65536, m[..i - 1]) && -65536 <= m[i - 1] < 65536
      invariant Val(65536, m[..i]) == Val(65536, s[..i]) - (Pow(65536, i) - 19)
    {
      BorrowLimb(m, i, t[i], 0xffff);
      PrefixStep(s, i);
    }
    BorrowLimb(m, 15, t[15], 0x7fff);
    assert m[..16] == m[..];
    TopDifference(s, m[..]);
  }

  lemma FirstLimb(s: seq<int>, m: seq<int>)
    requires |s| > 0 && |m| > 0 && m[0] == s[0] - 0xffed
    ensures Val(65536, m[..1]) == Val(65536, s[..1]) - (Pow(65536, 1) - 19)
  {
    ValTake(65536, s, 0);
    ValTake(65536, m, 0);
    assert s[..0] == [] && m[..0] == [];
    assert Pow(65536, 0) == 1;
  }

  lemma TopDifference(s: seq<int>, m: seq<int>)
    requires |s| == 16
    requires Val(65536, m) == Val(65536, s[..15]) - (Pow(65536, 15) - 19) + Pow(65536, 15) * (s[15] - 0x7fff)
    ensures Val(65536, m) == Val(65536, s) - P
  {
    Weights();
    ValTake(65536, s, 15);
    assert s[..16] == s;
  }

  /** One conditional subtraction of p, kept exactly when it does not underflow. */
  method SubtractOnce(t: array<i64>)
    requires t.Length == 16 && Digits(65536, t[..])
    modifies t
    ensures Digits(65536, t[..])
    ensures Int(t[..]) == (var v := old(Int(t[..])); if v >= P then v - P else v)
  {
    hide Val, Pow;
    ValBound(65536, t[..]);
    var m := TrialSubtract(t);
    var b := (m[15] / 65536) % 2;
    ghost var w := m[..];
    TopSign(w);
    if 1 - b == 1 {
      for i := 0 to 16
        invariant m[..] == w
        invariant forall k :: 0 <= k < i ==> t[k] == w[k]
      {
        t[i] := m[i];
      }
      assert t[..] == w;
    }
  }

  /** A difference is negative exactly when its top limb is. */
  lemma TopSign(m: seq<int>)
    requires |m| == 16 && Digits(65536, m[..15]) && -65536 <= m[15] < 65536
    ensures m[15] < 0 <==> Val(65536, m) < 0
  {
    Weights();
    ValTake(65536, m, 15);
    assert m[..16] == m;
    ValBound(65536, m[..15]);
  }

  // ---- pack25519 ----

  /** Two passes bring any limb vector in range into [0, 2^256). */
  lemma FoldTwice(v: int, m: int)
    requires 0 < m <= 0x1_0000_0000_0000 && -(m * R256) <= v <= m * R256
    ensures 0 <= Folded(Folded(v)) < R256
  {
    var k := v / R256;
    assert -m <= k <= m;
  }

  lemma AllDigits(s: seq<int>)
    requires |s| == 16 && Digits(65536, s[1..]) && 0 <= s[0] < 65536
    ensures Digits(65536, s)
  {
    assert forall i :: 1 <= i < 16 ==> s[i] == s[1..][i - 1];
  }

  /** Three carry passes leave proper digits, whatever the limbs below 2^18 were. */
  method CarryThrice(t: array<i64>)
    requires t.Length == 16 && Within(t[..], 0x4_0000)
    modifies t
    ensures Digits(65536, t[..]) && Cong(Int(t[..]), old(Int(t[..])))
  {
    hide Val, Pow;
    ghost var v := Int(t[..]);
    ValMagnitude(65536, t[..], 0x4_0000);
    Weights();
    FoldTwice(v, 0x4_0000);
    Car25519(t);
    FoldedCong(v);
    TopWithin(t[..], v, 0x4_0000);
    ghost var v1 := Folded(v);
    Car25519(t);
    FoldedCong(v1);
    ghost var v2 := Folded(v1);
    assert v2 / R256 == 0 && Folded(v2) == v2;
    TopWithin(t[..], v1, 2);
    Car25519(t);
    CongTrans(Folded(v1), v1, v);
    AllDigits(t[..]);
  }

  /** The residue reached after two conditional subtractions is the canonical one. */
  lemma TwoSubtractions(v: int)
    requires 0 <= v < R256
    ensures var w := if v >= P then v - P else v;
            (if w >= P then w - P else w) == v % P
  {
  }

  /** Splitting limbs into bytes keeps the value. */
  lemma {:induction false} SplitLimbs(t: seq<int>, o: seq<int>)
    requires |o| == 2 * |t| && Digits(65536, t)
    requires forall i :: 0 <= i < |t| ==> o[2 * i] == t[i] % 256
    requires forall i :: 0 <= i < |t| ==> o[2 * i + 1] == t[i] / 256
    ensures Val(256, o) == Val(65536, t)
  {
    if t != [] {
      var t', o' := t[1..], o[2..];
      forall i | 0 <= i < |t'| ensures o'[2 * i] == t'[i] % 256 && o'[2 * i + 1] == t'[i] / 256 {
        assert o'[2 * i] == o[2 * (i + 1)] && o'[2 * i + 1] == o[2 * (i + 1) + 1];
      }
      SplitLimbs(t', o');
      assert o[2 * 0] == t[0] % 256 && o[2 * 0 + 1] == t[0] / 256;
      assert o[1..][1..] == o';
      assert Val(256, o) == o[0] + 256 * Val(256, o[1..]);
      assert Val(256, o[1..]) == o[1] + 256 * Val(256, o');
    }
  }

  /** pack25519: the little-endian bytes of the residue in [0, p). */
  method Pack25519(n: Gf) returns (o: seq<byte>)
    requires Within(n, 0x4_0000)
    ensures |o| == 32 && Val(256, o) == Int(n) % P
  {
    hide Val, Pow;
    var t := new i64[16];
    for i := 0 to 16
      invariant forall k :: 0 <= k < i ==> t[k] == n[k]
    {
      t[i] := n[i];
    }
    assert t[..] == n;
    CarryThrice(t);
    CongIs(Int(t[..]), Int(n));
    ValBound(65536, t[..]);
    Weights();
    TwoSubtractions(Int(t[..]));
    SubtractOnce(t);
    SubtractOnce(t);
    o := ToBytes(t);
  }

  method ToBytes(t: array<i64>) returns (o: seq<byte>)
    requires t.Length == 16 && Digits(65536, t[..])
    ensures |o| == 32 && Val(256, o) == Int(t[..])
  {
    hide Val, Pow;
    var a := new byte[32];
    for i := 0 to 16
      invariant forall k :: 0 <= k < i ==> a[2 * k] == t[k] % 256 && a[2 * k + 1] == t[k] / 256
    {
      a[2 * i] := t[i] % 256;
      a[2 * i + 1] := t[i] / 256;
    }
    o := a[..];
    SplitLimbs(t[..], o);
  }

  /** neq25519: the encodings differ exactly when the elements differ modulo p. */
  method Neq25519(a: Gf, b: Gf) returns (neq: bool)
    requires Within(a, 0x4_0000) && Within(b, 0x4_0000)
    ensures neq <==> !Cong(Int(a), Int(b))
  {
    hide Val, Pow;
    var c := Pack25519(a);
    var d := Pack25519(b);
    neq := false;
    for i := 0 to 32
      invariant !neq <==> forall k :: 0 <= k < i ==> c[k] == d[k]
    {
      neq := neq || c[i] != d[i];
    }
    if !neq { assert c == d; }
    CongIs(Int(a), Int(b));
    if Val(256, c) == Val(256, d) { ValInjective(256, c, d); }
  }

  /** par25519: the parity of the canonical residue. */
  method Par25519(a: Gf) returns (r: byte)
    requires Within(a, 0x4_0000)
    ensures r == (Int(a) % P) % 2
  {
    var d := Pack25519(a);
    r := d[0] % 2;
    assert Val(256, d) == d[0] + 256 * Val(256, d[1..]);
  }

  /** unpack25519: the value of the 32 bytes with the sign bit dropped. */
  method Unpack25519(n: seq<byte>) returns (o: Gf)
    requires |n| == 32
    ensures Digits(65536, o)
    ensures Int(o) == Val(256, n) % 0x8000000000000000000000000000000000000000000000000000000000000000
  {
    hide Val, Pow;
    var a := new i64[16];
    for i := 0 to 16
      invariant forall k :: 0 <= k < i ==> a[k] == (n[2 * k] as int) + 256 * (n[2 * k + 1] as int)
    {
      a[i] := (n[2 * i] as int) + 256 * (n[2 * i + 1] as int);
    }
    ghost var full := a[..];
    assert Digits(65536, full);
    SplitLimbs(full, n);
    a[15] := a[15] % 0x8000;
    o := a[..];
    assert o == full[15 := full[15] + -0x8000 * (full[15] / 0x8000)];
    ValUpdate(65536, full, 15, -0x8000 * (full[15] / 0x8000));
    Weights();
    MaskTop(o, full, full[15] / 0x8000);
  }

  lemma MaskTop(o: seq<int>, full: seq<int>, q: int)
    requires |o| == 16 && Digits(65536, o) && o[15] < 0x8000
    requires Val(65536, o) == Val(65536, full) + Pow(65536, 15) * (-0x8000 * q)
    ensures Val(65536, o) == Val(65536, full) % 0x8000000000000000000000000000000000000000000000000000000000000000
  {
    Weights();
    ValTake(65536, o, 15);
    assert o[..16] == o;
    ValBound(65536, o[..15]);
    var h := 0x8000000000000000000000000000000000000000000000000000000000000000;
    DivModUnique(Val(65536, full), h, q, Val(65536, o));
  }

  /** Decoding an encoding gives back the element modulo p. */
  method PackUnpack(n: Gf) returns (m: Gf)
    requires Within(n, 0x4_0000)
    ensures Int(m) == Int(n) % P
  {
    var o := Pack25519(n);
    m := Unpack25519(o);
  }
}
