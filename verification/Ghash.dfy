/** Multiplication in GF(2^128) and GHASH (core/fw_decrypt.c, lines 33-77;
    NIST SP 800-38D, sections 6.3 and 6.4). */
module Ghash {
  import opened Types

  type Block = s: seq<bv8> | |s| == 16 witness [0, 0, 0, 0, 0, 0, 0, 0, 0, 0, 0, 0, 0, 0, 0, 0]

  const ZERO: Block := [0, 0, 0, 0, 0, 0, 0, 0, 0, 0, 0, 0, 0, 0, 0, 0]

  function Xor(a: Block, b: Block): (r: Block)
    ensures forall j :: 0 <= j < 16 ==> r[j] == XorBv(a[j], b[j])
  {
    seq(16, j requires 0 <= j < 16 => XorBv(a[j], b[j]))
  }

  /** 1 << (7 - j). */
  function Mask(j: int): bv8 {
    if j == 0 then 0x80 else if j == 1 then 0x40 else if j == 2 then 0x20 else if j == 3 then 0x10
    else if j == 4 then 0x08 else if j == 5 then 0x04 else if j == 6 then 0x02 else 0x01
  }

  predicate Tests(b: bv8, j: int) { b & Mask(j) != 0 }

  predicate Bit(x: Block, i: nat)
    requires i < 128
  {
    Tests(x[i / 8], i % 8)
  }

  /** A byte of a right shift: the low bit of the byte before comes in at the top. */
  function ShiftByte(a: bv8, before: bv8): bv8 { (a >> 1) | (before << 7) }

  /** The first byte: the bit that falls out at the end comes back as R. */
  function ShiftFirst(a: bv8, last: bv8): bv8 { XorBv(Half(a), FallOut(last)) }

  function Half(a: bv8): bv8 { a >> 1 }

  function FallOut(last: bv8): bv8 { if Tests(last, 7) then 0xE1 else 0 }

  function XorBv(a: bv8, b: bv8): bv8 { a ^ b }

  /** V := V >> 1, with R = 0xE1 || 0^120 added when a one falls out. */
  function Shift(v: Block): (r: Block) {
    seq(16, j requires 0 <= j < 16 =>
      if j == 0 then ShiftFirst(v[0], v[15]) else ShiftByte(v[j], v[j - 1]))
  }

  function ShiftN(v: Block, n: nat): Block {
    if n == 0 then v else Shift(ShiftN(v, n - 1))
  }

  /** The partial product over the first n bits of x (section 6.3, algorithm 1). */
  function Partial(x: Block, y: Block, n: nat): Block
    requires n <= 128
  {
    if n == 0 then ZERO
    else if Bit(x, n - 1) then Xor(Partial(x, y, n - 1), ShiftN(y, n - 1))
    else Partial(x, y, n - 1)
  }

  function Mult(x: Block, y: Block): Block { Partial(x, y, 128) }

  // ---- linearity ----

  lemma OneBit(a: bv8, j: int)
    ensures Mask(j) != 0 && (a & Mask(j) == 0 || a & Mask(j) == Mask(j))
  {
    if j == 0 {} else if j == 1 {} else if j == 2 {} else if j == 3 {}
    else if j == 4 {} else if j == 5 {} else if j == 6 {} else {}
  }

  lemma AndXor(a: bv8, b: bv8, m: bv8)
    ensures XorBv(a, b) & m == XorBv(a & m, b & m)
  {
  }

  lemma XorNonzero(x: bv8, y: bv8)
    ensures XorBv(x, y) != 0 <==> x != y
  {
  }

  /** A bit of an xor is the exclusive or of the bits. */
  lemma MaskXor(a: bv8, b: bv8, j: int)
    ensures Tests(XorBv(a, b), j) == (Tests(a, j) != Tests(b, j))
  {
    hide XorBv, Mask;
    OneBit(a, j);
    OneBit(b, j);
    AndXor(a, b, Mask(j));
    XorNonzero(a & Mask(j), b & Mask(j));
  }

  lemma ShiftByteXor(a: bv8, b: bv8, c: bv8, d: bv8)
    ensures ShiftByte(XorBv(a, b), XorBv(c, d)) == XorBv(ShiftByte(a, c), ShiftByte(b, d))
  {
  }

  lemma HalfXor(a: bv8, b: bv8)
    ensures Half(XorBv(a, b)) == XorBv(Half(a), Half(b))
  {
  }

  lemma ShiftTopXor(a: bv8, b: bv8, c: bv8, d: bv8)
    ensures ShiftFirst(XorBv(a, b), XorBv(c, d)) == XorBv(ShiftFirst(a, c), ShiftFirst(b, d))
  {
    hide XorBv, Tests, Half;
    HalfXor(a, b);
    MaskXor(c, d, 7);
    XorUnit(0xE1);
    XorUnit(0);
    XorComm(0, 0xE1);
    XorByte(Half(a), FallOut(c), Half(b), FallOut(d));
  }

  lemma ShiftAt(v: Block, j: nat)
    requires j < 16
    ensures Shift(v)[j] == if j == 0 then ShiftFirst(v[0], v[15]) else ShiftByte(v[j], v[j - 1])
  {
    hide ShiftByte, ShiftFirst;
  }

  lemma ShiftXorAt(v: Block, w: Block, j: nat)
    requires j < 16
    ensures Shift(Xor(v, w))[j] == XorBv(Shift(v)[j], Shift(w)[j])
  {
    hide XorBv, ShiftByte, ShiftFirst, Shift, Xor;
    ShiftAt(v, j);
    ShiftAt(w, j);
    ShiftAt(Xor(v, w), j);
    if j == 0 { ShiftTopXor(v[0], w[0], v[15], w[15]); } else { ShiftByteXor(v[j], w[j], v[j - 1], w[j - 1]); }
  }

  lemma ShiftXor(v: Block, w: Block)
    ensures Shift(Xor(v, w)) == Xor(Shift(v), Shift(w))
  {
    hide XorBv, Shift;
    forall j | 0 <= j < 16 ensures Shift(Xor(v, w))[j] == Xor(Shift(v), Shift(w))[j] {
      ShiftXorAt(v, w, j);
    }
  }

  lemma {:induction false} ShiftNXor(v: Block, w: Block, n: nat)
    ensures ShiftN(Xor(v, w), n) == Xor(ShiftN(v, n), ShiftN(w, n))
  {
    hide Shift, Xor;
    if n != 0 {
      ShiftNXor(v, w, n - 1);
      ShiftXor(ShiftN(v, n - 1), ShiftN(w, n - 1));
    } else {
      assert ShiftN(Xor(v, w), 0) == Xor(v, w);
    }
  }

  lemma XorComm(a: bv8, b: bv8)
    ensures XorBv(a, b) == XorBv(b, a)
  {
  }

  lemma XorAssoc(a: bv8, b: bv8, c: bv8)
    ensures XorBv(XorBv(a, b), c) == XorBv(a, XorBv(b, c))
  {
  }

  lemma XorUnit(a: bv8)
    ensures XorBv(a, a) == 0 && XorBv(a, 0) == a
  {
  }

  lemma XorByte(a: bv8, b: bv8, c: bv8, d: bv8)
    ensures XorBv(XorBv(a, b), XorBv(c, d)) == XorBv(XorBv(a, c), XorBv(b, d))
    ensures XorBv(XorBv(a, b), c) == XorBv(XorBv(a, c), b)
    ensures XorBv(XorBv(a, b), c) == XorBv(a, XorBv(b, c))
    ensures XorBv(XorBv(a, c), XorBv(b, c)) == XorBv(a, b)
    ensures XorBv(XorBv(a, b), b) == a
  {
    hide XorBv;
    XorAssoc(a, b, XorBv(c, d)); XorAssoc(b, c, d); XorComm(b, c); XorAssoc(c, b, d); XorAssoc(a, c, XorBv(b, d));
    XorAssoc(a, b, c); XorAssoc(a, c, b);
    XorAssoc(a, c, XorBv(b, c)); XorAssoc(c, b, c); XorComm(c, b); XorAssoc(b, c, c); XorUnit(c); XorUnit(b);
    XorAssoc(a, b, b); XorUnit(a);
  }

  /** Rearrangements of xors of blocks. */
  lemma XorLaws(a: Block, b: Block, c: Block, d: Block)
    ensures Xor(Xor(a, b), Xor(c, d)) == Xor(Xor(a, c), Xor(b, d))
    ensures Xor(Xor(a, b), c) == Xor(Xor(a, c), b)
    ensures Xor(Xor(a, b), c) == Xor(a, Xor(b, c))
    ensures Xor(Xor(a, c), Xor(b, c)) == Xor(a, b)
  {
    hide XorBv;
    forall j | 0 <= j < 16
      ensures Xor(Xor(a, b), Xor(c, d))[j] == Xor(Xor(a, c), Xor(b, d))[j]
      ensures Xor(Xor(a, b), c)[j] == Xor(Xor(a, c), b)[j]
      ensures Xor(Xor(a, b), c)[j] == Xor(a, Xor(b, c))[j]
      ensures Xor(Xor(a, c), Xor(b, c))[j] == Xor(a, b)[j]
    {
      XorByte(a[j], b[j], c[j], d[j]);
    }
  }

  lemma XorZero()
    ensures Xor(ZERO, ZERO) == ZERO
  {
  }

  /** ghash_mult is xor-linear in its first argument. */
  lemma {:induction false} MultLinearLeft(x: Block, x': Block, y: Block, n: nat)
    requires n <= 128
    ensures Partial(Xor(x, x'), y, n) == Xor(Partial(x, y, n), Partial(x', y, n))
  {
    hide Xor, ShiftN, Tests, XorBv;
    if n == 0 {
      XorZero();
    } else {
      MultLinearLeft(x, x', y, n - 1);
      XorBytes(x, x', (n - 1) / 8);
      MaskXor(x[(n - 1) / 8], x'[(n - 1) / 8], (n - 1) % 8);
      var p, q, v := Partial(x, y, n - 1), Partial(x', y, n - 1), ShiftN(y, n - 1);
      XorLaws(p, q, v, v);
    }
  }

  lemma XorBytes(a: Block, b: Block, j: nat)
    requires j < 16
    ensures Xor(a, b)[j] == XorBv(a[j], b[j])
  {
  }

  /** ghash_mult is xor-linear in its second argument. */
  lemma {:induction false} MultLinearRight(x: Block, y: Block, y': Block, n: nat)
    requires n <= 128
    ensures Partial(x, Xor(y, y'), n) == Xor(Partial(x, y, n), Partial(x, y', n))
  {
    hide Xor, ShiftN, Bit;
    if n == 0 {
      XorZero();
    } else {
      MultLinearRight(x, y, y', n - 1);
      ShiftNXor(y, y', n - 1);
      XorLaws(Partial(x, y, n - 1), Partial(x, y', n - 1), ShiftN(y, n - 1), ShiftN(y', n - 1));
    }
  }

  // ---- the in-place multiplication ----

  method ShiftInPlace(v: array<bv8>)
    requires v.Length == 16
    modifies v
    ensures v[..] == Shift(old(v[..]))
  {
    hide XorBv, ShiftByte, ShiftFirst, Half, Tests;
    ghost var s := v[..];
    var lsb := Tests(v[15], 7);
    for j := 16 downto 1
      invariant forall k :: j <= k < 16 ==> v[k] == ShiftByte(s[k], s[k - 1])
      invariant forall k :: 0 <= k < j ==> v[k] == s[k]
    {
      v[j] := ShiftByte(v[j], v[j - 1]);
    }
    v[0] := Half(v[0]);
    if lsb { v[0] := XorBv(v[0], 0xE1); }
    FirstByte(s[0], s[15], v[0]);
    assert v[..] == Shift(s);
  }

  lemma FirstByte(a: bv8, last: bv8, r: bv8)
    requires r == if Tests(last, 7) then XorBv(Half(a), 0xE1) else Half(a)
    ensures r == ShiftFirst(a, last)
  {
    XorUnit(Half(a));
  }

  method XorInto(z: array<bv8>, v: Block)
    requires z.Length == 16
    modifies z
    ensures z[..] == Xor(old(z[..]), v)
  {
    hide XorBv;
    ghost var s := z[..];
    for j := 0 to 16
      invariant forall k :: 0 <= k < j ==> z[k] == XorBv(s[k], v[k])
      invariant forall k :: j <= k < 16 ==> z[k] == s[k]
    {
      z[j] := XorBv(z[j], v[j]);
    }
    assert z[..] == Xor(s, v);
  }

  /** ghash_mult. */
  method GhashMult(x: array<bv8>, y: Block)
    requires x.Length == 16
    modifies x
    ensures x[..] == Mult(old(x[..]), y)
  {
    hide Xor, Shift, Tests;
    ghost var x0: Block := x[..];
    var v := new bv8[16](i requires 0 <= i < 16 => y[i]);
    var z := new bv8[16](_ => 0);
    assert v[..] == y && z[..] == ZERO;
    for i := 0 to 128
      invariant x[..] == x0
      invariant v[..] == ShiftN(y, i) && z[..] == Partial(x0, y, i)
    {
      assert x[i / 8] == x0[i / 8];
      if Tests(x[i / 8], i % 8) { XorInto(z, v[..]); }
      ShiftInPlace(v);
    }
    forall i | 0 <= i < 16 { x[i] := z[i]; }
    assert x[..] == z[..];
  }
}
