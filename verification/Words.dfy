/** 32-bit words as numbers, as registers and as little-endian bytes. */
module Words {
  import opened Types
  import Crc32

  // ---- a register and the number it holds ----

  function Two(p: bool, n: nat): nat { 2 * n + if p then 1 else 0 }

  /** The byte with these bits, lowest first. */
  function Sum8(p0: bool, p1: bool, p2: bool, p3: bool, p4: bool, p5: bool, p6: bool, p7: bool): byte {
    Two(p0, Two(p1, Two(p2, Two(p3, Two(p4, Two(p5, Two(p6, Two(p7, 0))))))))
  }

  predicate Bit(c: bv32, w: bv32) { c & w != 0 }

  function LowByte(c: bv32): byte {
    Sum8(Bit(c, 1), Bit(c, 2), Bit(c, 4), Bit(c, 8), Bit(c, 16), Bit(c, 32), Bit(c, 64), Bit(c, 128))
  }

  lemma SumBits(p0: bool, p1: bool, p2: bool, p3: bool, p4: bool, p5: bool, p6: bool, p7: bool)
    ensures var n := Sum8(p0, p1, p2, p3, p4, p5, p6, p7);
            && (Crc32.Odd(n, 0) == p0 && Crc32.Odd(n, 1) == p1 && Crc32.Odd(n, 2) == p2 && Crc32.Odd(n, 3) == p3)
            && (Crc32.Odd(n, 4) == p4 && Crc32.Odd(n, 5) == p5 && Crc32.Odd(n, 6) == p6 && Crc32.Odd(n, 7) == p7)
  {
    hide Two, Crc32.Odd;
    var n7 := Two(p7, 0);
    var n6 := Two(p6, n7);
    var n5 := Two(p5, n6);
    var n4 := Two(p4, n5);
    var n3 := Two(p3, n4);
    var n2 := Two(p2, n3);
    var n1 := Two(p1, n2);
    OddTwo(p0, n1, 0);
    OddTwo(p0, n1, 1); OddTwo(p1, n2, 0);
    OddTwo(p0, n1, 2); OddTwo(p1, n2, 1); OddTwo(p2, n3, 0);
    OddTwo(p0, n1, 3); OddTwo(p1, n2, 2); OddTwo(p2, n3, 1); OddTwo(p3, n4, 0);
    OddTwo(p0, n1, 4); OddTwo(p1, n2, 3); OddTwo(p2, n3, 2); OddTwo(p3, n4, 1); OddTwo(p4, n5, 0);
    OddTwo(p0, n1, 5); OddTwo(p1, n2, 4); OddTwo(p2, n3, 3); OddTwo(p3, n4, 2); OddTwo(p4, n5, 1); OddTwo(p5, n6, 0);
    OddTwo(p0, n1, 6); OddTwo(p1, n2, 5); OddTwo(p2, n3, 4); OddTwo(p3, n4, 3); OddTwo(p4, n5, 2); OddTwo(p5, n6, 1);
        OddTwo(p6, n7, 0);
    OddTwo(p0, n1, 7); OddTwo(p1, n2, 6); OddTwo(p2, n3, 5); OddTwo(p3, n4, 4); OddTwo(p4, n5, 3); OddTwo(p5, n6, 2);
        OddTwo(p6, n7, 1); OddTwo(p7, 0, 0);
  }

  lemma OddTwo(p: bool, n: nat, k: nat)
    ensures Crc32.Odd(Two(p, n), k) == if k == 0 then p else Crc32.Odd(n, k - 1)
  {
    if k != 0 { assert Two(p, n) / 2 == n; }
  }

  lemma PackLow(c: bv32)
    ensures Crc32.Pack8(Bit(c, 1), Bit(c, 2), Bit(c, 4), Bit(c, 8), Bit(c, 16), Bit(c, 32), Bit(c, 64), Bit(c, 128)) ==
              c & 0xFF
  {
  }

  lemma WidenLowByte(c: bv32)
    ensures Crc32.Widen(LowByte(c)) == c & 0xFF
  {
    hide Sum8, Crc32.Odd, Crc32.Pack8, Bit;
    SumBits(Bit(c, 1), Bit(c, 2), Bit(c, 4), Bit(c, 8), Bit(c, 16), Bit(c, 32), Bit(c, 64), Bit(c, 128));
    PackLow(c);
  }

  lemma WidenSmall(b: byte)
    ensures Crc32.Widen(b) & 0xFF == Crc32.Widen(b)
  {
    hide Crc32.Odd;
  }

  lemma LowByteWiden(b: byte)
    ensures LowByte(Crc32.Widen(b)) == b
  {
    hide LowByte, Crc32.Widen;
    WidenLowByte(Crc32.Widen(b));
    WidenSmall(b);
    Crc32.WidenInjective(LowByte(Crc32.Widen(b)), b);
  }

  function Join(a: bv32, b: bv32, c: bv32, d: bv32): bv32 { a | (b << 8) | (c << 16) | (d << 24) }

  function Shift(c: bv32, k: nat): bv32
    requires k < 4
  {
    if k == 0 then c else if k == 1 then c >> 8 else if k == 2 then c >> 16 else c >> 24
  }

  function Low8(c: bv32): bv32 { c & 0xFF }

  lemma JoinSplit(c: bv32)
    ensures Join(Low8(Shift(c, 0)), Low8(Shift(c, 1)), Low8(Shift(c, 2)), Low8(Shift(c, 3))) == c
  {
  }

  lemma SplitJoin(a: bv32, b: bv32, c: bv32, d: bv32)
    requires Low8(a) == a && Low8(b) == b && Low8(c) == c && Low8(d) == d
    ensures var j := Join(a, b, c, d);
            Low8(Shift(j, 0)) == a && Low8(Shift(j, 1)) == b && Low8(Shift(j, 2)) == c && Low8(Shift(j, 3)) == d
  {
  }

  /** The register four little-endian bytes hold. */
  function Reg(s: seq<byte>): bv32
    requires |s| == 4
  {
    Join(Crc32.Widen(s[0]), Crc32.Widen(s[1]), Crc32.Widen(s[2]), Crc32.Widen(s[3]))
  }

  /** The four little-endian bytes of a register. */
  function RegBytes(c: bv32): (s: seq<byte>)
    ensures |s| == 4
  {
    [LowByte(Shift(c, 0)), LowByte(Shift(c, 1)), LowByte(Shift(c, 2)), LowByte(Shift(c, 3))]
  }

  lemma RegOfBytes(c: bv32)
    ensures Reg(RegBytes(c)) == c
  {
    hide LowByte, Crc32.Widen, Join, Shift;
    WidenLowByte(Shift(c, 0));
    WidenLowByte(Shift(c, 1));
    WidenLowByte(Shift(c, 2));
    WidenLowByte(Shift(c, 3));
    JoinSplit(c);
  }

  lemma BytesOfReg(s: seq<byte>)
    requires |s| == 4
    ensures RegBytes(Reg(s)) == s
  {
    hide LowByte, Crc32.Widen, Join, Shift;
    forall i | 0 <= i < 4 ensures Low8(Crc32.Widen(s[i])) == Crc32.Widen(s[i]) && LowByte(Crc32.Widen(s[i])) == s[i] {
      WidenSmall(s[i]);
      LowByteWiden(s[i]);
    }
    SplitJoin(Crc32.Widen(s[0]), Crc32.Widen(s[1]), Crc32.Widen(s[2]), Crc32.Widen(s[3]));
    var r := Reg(s);
    SameLow(Shift(r, 0), s[0]);
    SameLow(Shift(r, 1), s[1]);
    SameLow(Shift(r, 2), s[2]);
    SameLow(Shift(r, 3), s[3]);
  }

  lemma SameLow(c: bv32, b: byte)
    requires Low8(c) == Crc32.Widen(b)
    ensures LowByte(c) == b
  {
    hide LowByte, Crc32.Widen;
    WidenLowByte(c);
    Crc32.WidenInjective(LowByte(c), b);
  }

  // ---- a number and its bytes ----

  function WordBytes(n: u32): (s: seq<byte>)
    ensures |s| == 4
  {
    [n % 0x100, n / 0x100 % 0x100, n / 0x1_0000 % 0x100, n / 0x100_0000]
  }

  lemma WordOfBytes(n: u32)
    ensures Le32(WordBytes(n), 0) == n
  {
    var q1 := n as int / 0x100;
    var q2 := q1 / 0x100;
    var q3 := q2 / 0x100;
    assert n / 0x1_0000 == q2 && n / 0x100_0000 == q3;
  }

  lemma BytesOfWord(s: seq<byte>)
    requires |s| == 4
    ensures WordBytes(Le32(s, 0)) == s
  {
    var a, b, c, d := s[0] as int, s[1] as int, s[2] as int, s[3] as int;
    var n := Le32(s, 0) as int;
    assert n / 0x100 == b + 0x100 * c + 0x1_0000 * d && n % 0x100 == a;
    assert n / 0x1_0000 == c + 0x100 * d;
    assert n / 0x100_0000 == d;
  }

  // ---- several words back to back ----

  type Quad = s: seq<byte> | |s| == 4 witness [0, 0, 0, 0]

  function Flat(ws: seq<Quad>): (s: seq<byte>)
    ensures |s| == 4 * |ws|
  {
    if ws == [] then [] else ws[0] + Flat(ws[1..])
  }

  function Split(s: seq<byte>): (ws: seq<Quad>)
    requires |s| % 4 == 0
    ensures 4 * |ws| == |s|
    decreases |s|
  {
    if s == [] then [] else [s[..4]] + Split(s[4..])
  }

  lemma {:induction false} SplitFlat(ws: seq<Quad>)
    ensures Split(Flat(ws)) == ws
  {
    if ws != [] {
      SplitFlat(ws[1..]);
      assert Flat(ws)[..4] == ws[0] && Flat(ws)[4..] == Flat(ws[1..]);
    }
  }

  lemma {:induction false} FlatSplit(s: seq<byte>)
    requires |s| % 4 == 0
    ensures Flat(Split(s)) == s
    decreases |s|
  {
    if s != [] {
      FlatSplit(s[4..]);
      assert Split(s)[1..] == Split(s[4..]);
    }
  }
}
