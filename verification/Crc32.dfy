/** CRC-32 (reflected, polynomial 0xEDB88320), as written out in core/bootctl.c (lines 17-32),
    core/fw_update.c (lines 61-72) and core/image_verify.c (lines 24-61). */
module Crc32 {
  import opened Types

  function BitStep(c: bv32): bv32 {
    if c & 1 != 0 then (c >> 1) ^ 0xEDB88320 else c >> 1
  }

  function EightSteps(c: bv32): bv32 {
    BitStep(BitStep(BitStep(BitStep(BitStep(BitStep(BitStep(BitStep(c))))))))
  }

  /** A register with one bit, or none. */
  function At(on: bool, weight: bv32): bv32 { if on then weight else 0 }

  function Pack8(p0: bool, p1: bool, p2: bool, p3: bool, p4: bool, p5: bool, p6: bool, p7: bool): bv32 {
    At(p0, 1) | At(p1, 2) | At(p2, 4) | At(p3, 8) | At(p4, 16) | At(p5, 32) | At(p6, 64) | At(p7, 128)
  }

  function Halved(n: nat, k: nat): nat { if k == 0 then n else Halved(n / 2, k - 1) }

  predicate Odd(n: nat, k: nat) { Halved(n, k) % 2 == 1 }

  /** The byte zero-extended to the width of the register. */
  function Widen(b: byte): bv32 {
    Pack8(Odd(b, 0), Odd(b, 1), Odd(b, 2), Odd(b, 3), Odd(b, 4), Odd(b, 5), Odd(b, 6), Odd(b, 7))
  }

  function Xor32(c: bv32, d: bv32): bv32 { c ^ d }

  function Mix(c: bv32, b: byte): bv32 { Xor32(c, Widen(b)) }

  function ByteStep(c: bv32, b: byte): bv32 { EightSteps(Mix(c, b)) }

  /** The register after the bytes of s. */
  function Fold(c: bv32, s: seq<byte>): bv32
    decreases |s|
  {
    if s == [] then c else Fold(ByteStep(c, s[0]), s[1..])
  }

  function Not(c: bv32): bv32 { Xor32(c, 0xFFFF_FFFF) }

  /** crc32_buf. */
  function Crc(s: seq<byte>): bv32 { Not(Fold(0xFFFF_FFFF, s)) }

  /** The byte loops of the C: the register is the fold over the bytes read so far. */
  method Run(crc: bv32, data: seq<byte>) returns (r: bv32)
    ensures r == Fold(crc, data)
  {
    hide BitStep, Mix;
    r := crc;
    assert data[0..] == data;
    for i := 0 to |data|
      invariant Fold(r, data[i..]) == Fold(crc, data)
    {
      ghost var r0 := r;
      r := Mix(r, data[i]);
      ghost var m := r;
      r := BitStep(BitStep(BitStep(BitStep(r))));
      r := BitStep(BitStep(BitStep(BitStep(r))));
      assert data[i..][1..] == data[i + 1..];
    }
  }

  lemma {:induction false} FoldConcat(c: bv32, s: seq<byte>, t: seq<byte>)
    ensures Fold(c, s + t) == Fold(Fold(c, s), t)
    decreases |s|
  {
    hide ByteStep;
    if s == [] {
      assert s + t == t;
    } else {
      assert (s + t)[1..] == s[1..] + t;
      FoldConcat(ByteStep(c, s[0]), s[1..], t);
    }
  }

  // ---- injectivity ----

  /** One bit step loses nothing: the top bit of the result tells which way it went. */
  lemma BitStepInjective(c: bv32, d: bv32)
    requires BitStep(c) == BitStep(d)
    ensures c == d
  {
  }

  lemma EightStepsInjective(c: bv32, d: bv32)
    requires EightSteps(c) == EightSteps(d)
    ensures c == d
  {
    hide BitStep;
    var c1, d1 := BitStep(c), BitStep(d);
    var c2, d2 := BitStep(c1), BitStep(d1);
    var c3, d3 := BitStep(c2), BitStep(d2);
    var c4, d4 := BitStep(c3), BitStep(d3);
    var c5, d5 := BitStep(c4), BitStep(d4);
    var c6, d6 := BitStep(c5), BitStep(d5);
    var c7, d7 := BitStep(c6), BitStep(d6);
    BitStepInjective(c7, d7); BitStepInjective(c6, d6); BitStepInjective(c5, d5); BitStepInjective(c4, d4);
    BitStepInjective(c3, d3); BitStepInjective(c2, d2); BitStepInjective(c1, d1); BitStepInjective(c, d);
  }

  lemma BitsApart(p0: bool, p1: bool, p2: bool, p3: bool, p4: bool, p5: bool, p6: bool, p7: bool,
                  q0: bool, q1: bool, q2: bool, q3: bool, q4: bool, q5: bool, q6: bool, q7: bool)
    requires Pack8(p0, p1, p2, p3, p4, p5, p6, p7) == Pack8(q0, q1, q2, q3, q4, q5, q6, q7)
    ensures p0 == q0 && p1 == q1 && p2 == q2 && p3 == q3 && p4 == q4 && p5 == q5 && p6 == q6 && p7 == q7
  {
  }

  lemma {:induction false} SameBits(b: nat, b': nat, k: nat, bound: nat)
    requires b < bound && b' < bound && bound <= Doubled(k)
    requires forall i :: 0 <= i < k ==> Odd(b, i) == Odd(b', i)
    ensures b == b'
  {
    if k != 0 {
      assert Odd(b, 0) == Odd(b', 0);
      forall i | 0 <= i < k - 1 ensures Odd(b / 2, i) == Odd(b' / 2, i) {
        assert Odd(b, i + 1) == Odd(b', i + 1);
      }
      SameBits(b / 2, b' / 2, k - 1, Doubled(k - 1));
    }
  }

  function Doubled(k: nat): nat { if k == 0 then 1 else 2 * Doubled(k - 1) }

  lemma WidenInjective(b: byte, b': byte)
    requires Widen(b) == Widen(b')
    ensures b == b'
  {
    hide Pack8, Odd, Doubled;
    BitsApart(Odd(b, 0), Odd(b, 1), Odd(b, 2), Odd(b, 3), Odd(b, 4), Odd(b, 5), Odd(b, 6), Odd(b, 7),
              Odd(b', 0), Odd(b', 1), Odd(b', 2), Odd(b', 3), Odd(b', 4), Odd(b', 5), Odd(b', 6), Odd(b', 7));
    EightDoublings();
    SameBits(b, b', 8, 256);
  }

  lemma EightDoublings()
    ensures Doubled(8) == 256
  {
    assert Doubled(4) == 16;
  }

  lemma XorCancel(c: bv32, x: bv32, y: bv32)
    ensures Xor32(c, x) == Xor32(c, y) ==> x == y
    ensures Xor32(x, c) == Xor32(y, c) ==> x == y
  {
  }

  /** Different bytes, or the same byte on different registers, give different registers. */
  lemma ByteStepInjective(c: bv32, c': bv32, b: byte, b': byte)
    requires (c == c' && b != b') || (c != c' && b == b')
    ensures ByteStep(c, b) != ByteStep(c', b')
  {
    hide EightSteps, Widen, Xor32;
    if ByteStep(c, b) == ByteStep(c', b') {
      EightStepsInjective(Mix(c, b), Mix(c', b'));
      if c == c' {
        XorCancel(c, Widen(b), Widen(b'));
        WidenInjective(b, b');
      } else {
        XorCancel(Widen(b), c, c');
      }
    }
  }

  lemma {:induction false} FoldInjective(c: bv32, c': bv32, s: seq<byte>)
    requires c != c'
    ensures Fold(c, s) != Fold(c', s)
    decreases |s|
  {
    hide ByteStep;
    if s != [] {
      ByteStepInjective(c, c', s[0], s[0]);
      FoldInjective(ByteStep(c, s[0]), ByteStep(c', s[0]), s[1..]);
    }
  }

  /** A CRC sees every change of a single byte, at any length. */
  lemma OneByteChanges(s: seq<byte>, i: nat, b: byte)
    requires i < |s| && s[i] != b
    ensures Crc(s[i := b]) != Crc(s)
  {
    hide Fold, ByteStep, Xor32;
    var t := s[i := b];
    var pre, post := s[..i], s[i + 1..];
    assert s == pre + ([s[i]] + post) && t == pre + ([b] + post);
    var c := Fold(0xFFFF_FFFF, pre);
    FoldConcat(0xFFFF_FFFF, pre, [s[i]] + post);
    FoldConcat(0xFFFF_FFFF, pre, [b] + post);
    FoldFirst(c, s[i], post);
    FoldFirst(c, b, post);
    ByteStepInjective(c, c, s[i], b);
    FoldInjective(ByteStep(c, s[i]), ByteStep(c, b), post);
    XorCancel(0xFFFF_FFFF, Fold(ByteStep(c, s[i]), post), Fold(ByteStep(c, b), post));
  }

  lemma FoldFirst(c: bv32, b: byte, s: seq<byte>)
    ensures Fold(c, [b] + s) == Fold(ByteStep(c, b), s)
  {
    hide ByteStep;
    assert ([b] + s)[1..] == s;
  }
}
