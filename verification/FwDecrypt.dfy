/** Streaming AES-256-GCM decryption (core/fw_decrypt.c, lines 193-395; NIST SP 800-38D,
    sections 6.4, 6.5 and 7.2). The AES block function under the device key is a parameter. */
module FwDecrypt {
  import opened Types
  import opened Ghash

  type Bytes = seq<bv8>

  // ---- reference: GCM with a 96-bit IV and no additional data ----

  function Be(v: nat, n: nat): (s: Bytes)
    ensures |s| == n
  {
    if n == 0 then [] else Be(v / 256, n - 1) + [(v % 256) as bv8]
  }

  /** The counter block of data block i: IV || 32-bit counter i + 2. */
  function CounterBlock(iv: Bytes, i: nat): Block
    requires |iv| == 12
  {
    iv + Be((i + 2) % 0x1_0000_0000, 4)
  }

  /** inc32 on the integer value of the last four bytes. */
  function Inc32(ctr: nat): nat { (ctr + 1) % 0x1_0000_0000 }

  /** The counter of data block i is inc32 applied i + 1 times to that of J0, which is 1. */
  function Iterated(i: nat): nat { if i == 0 then Inc32(1) else Inc32(Iterated(i - 1)) }

  lemma {:induction false} IteratedValue(i: nat)
    ensures Iterated(i) == (i + 2) % 0x1_0000_0000
  {
    hide Inc32;
    if i == 0 {
      IncMod(1);
    } else {
      IteratedValue(i - 1);
      IncMod(i + 1);
    }
  }

  lemma IncMod(x: nat)
    ensures Inc32(x % 0x1_0000_0000) == (x + 1) % 0x1_0000_0000
  {
    var q, r := x / 0x1_0000_0000, x % 0x1_0000_0000;
    assert x + 1 == q * 0x1_0000_0000 + (r + 1);
  }

  lemma CounterIsIteratedInc32(iv: Bytes, i: nat)
    requires |iv| == 12
    ensures CounterBlock(iv, i) == iv + Be(Iterated(i), 4)
  {
    hide Be;
    IteratedValue(i);
  }

  /** Key stream byte p. */
  function Key(aes: Block -> Block, iv: Bytes, p: nat): bv8
    requires |iv| == 12
  {
    aes(CounterBlock(iv, p / 16))[p % 16]
  }

  /** GCTR from stream position n on. */
  function Gctr(aes: Block -> Block, iv: Bytes, n: nat, x: Bytes): (y: Bytes)
    requires |iv| == 12
    ensures |y| == |x|
  {
    seq(|x|, k requires 0 <= k < |x| => XorBv(x[k], Key(aes, iv, n + k)))
  }

  /** Decrypting what GCTR encrypted gives the message back. */
  lemma GctrTwice(aes: Block -> Block, iv: Bytes, n: nat, x: Bytes)
    requires |iv| == 12
    ensures Gctr(aes, iv, n, Gctr(aes, iv, n, x)) == x
  {
    hide XorBv, Key;
    var y := Gctr(aes, iv, n, x);
    forall k | 0 <= k < |x| ensures Gctr(aes, iv, n, y)[k] == x[k] {
      XorByte(x[k], Key(aes, iv, n + k), 0, 0);
    }
  }

  lemma GctrConcat(aes: Block -> Block, iv: Bytes, n: nat, x: Bytes, y: Bytes)
    requires |iv| == 12
    ensures Gctr(aes, iv, n, x + y) == Gctr(aes, iv, n, x) + Gctr(aes, iv, n + |x|, y)
  {
    hide XorBv, Key;
  }

  /** GHASH over whole blocks (section 6.4). */
  function GhashOf(h: Block, y: Block, x: Bytes): Block
    decreases |x|
  {
    if |x| < 16 then y else GhashOf(h, Mult(Xor(y, x[..16]), h), x[16..])
  }

  function Zeros(n: nat): (s: Bytes)
    ensures |s| == n && forall i :: 0 <= i < n ==> s[i] == 0
  {
    if n == 0 then [] else Zeros(n - 1) + [0]
  }

  /** The ciphertext padded with zeros to whole blocks. */
  function PadBlock(c: Bytes): Bytes { c + Zeros((16 - |c| % 16) % 16) }

  /** The authentication tag (section 7.2, with empty additional data). */
  function Tag(aes: Block -> Block, iv: Bytes, c: Bytes): Block
    requires |iv| == 12
  {
    var h := aes(ZERO);
    Xor(GhashOf(h, ZERO, PadBlock(c) + (Zeros(8) + Be(8 * |c|, 8))), aes(iv + Be(1, 4)))
  }

  // ---- the accumulator byte by byte ----

  function AbsorbByte(h: Block, acc: Block, n: nat, c: bv8): Block {
    var a := acc[n % 16 := XorBv(acc[n % 16], c)];
    if n % 16 == 15 then Mult(a, h) else a
  }

  function Absorb(h: Block, acc: Block, n: nat, c: Bytes): Block
    decreases |c|
  {
    if c == [] then acc else Absorb(h, AbsorbByte(h, acc, n, c[0]), n + 1, c[1..])
  }

  /** Chunk boundaries do not matter. */
  lemma {:induction false} AbsorbConcat(h: Block, acc: Block, n: nat, x: Bytes, y: Bytes)
    ensures Absorb(h, acc, n, x + y) == Absorb(h, Absorb(h, acc, n, x), n + |x|, y)
    decreases |x|
  {
    hide AbsorbByte;
    if x == [] {
      assert x + y == y;
    } else {
      assert (x + y)[1..] == x[1..] + y && (x + y)[0] == x[0];
      AbsorbConcat(h, AbsorbByte(h, acc, n, x[0]), n + 1, x[1..], y);
    }
  }

  /** c at offset start of an otherwise zero block. */
  function Place(start: nat, c: Bytes): Block
    requires start + |c| <= 16
  {
    Zeros(start) + c + Zeros(16 - start - |c|)
  }

  lemma PlaceStep(acc: Block, start: nat, c: Bytes)
    requires 0 < |c| && start + |c| <= 16
    ensures Xor(acc, Place(start, c)) == Xor(acc[start := XorBv(acc[start], c[0])], Place(start + 1, c[1..]))
  {
    hide XorBv, Zeros;
    var p, q, a := Place(start, c), Place(start + 1, c[1..]), acc[start := XorBv(acc[start], c[0])];
    forall j | 0 <= j < 16 ensures Xor(acc, p)[j] == Xor(a, q)[j] {
      if j == start {
        assert p[j] == c[0] && q[j] == 0;
        XorUnit(a[j]);
      } else {
        assert p[j] == q[j];
      }
    }
  }

  lemma PlaceNothing(acc: Block, start: nat)
    requires start <= 16
    ensures Xor(acc, Place(start, [])) == acc
  {
    hide XorBv;
    forall j | 0 <= j < 16 ensures Xor(acc, Place(start, []))[j] == acc[j] { XorUnit(acc[j]); }
  }

  /** A chunk inside one block is xored in as a whole, with the multiplication exactly when
      it completes the block. */
  lemma {:induction false} AbsorbInBlock(h: Block, acc: Block, n: nat, c: Bytes)
    requires 0 < |c| && n % 16 + |c| <= 16
    ensures var a := Xor(acc, Place(n % 16, c));
            Absorb(h, acc, n, c) == if n % 16 + |c| == 16 then Mult(a, h) else a
    decreases |c|
  {
    hide Xor, XorBv, Mult, Place;
    var a := acc[n % 16 := XorBv(acc[n % 16], c[0])];
    PlaceStep(acc, n % 16, c);
    if |c| == 1 {
      PlaceNothing(a, n % 16 + 1);
      assert c[1..] == [];
    } else {
      assert (n + 1) % 16 == n % 16 + 1;
      AbsorbInBlock(h, a, n + 1, c[1..]);
    }
  }

  /** Absorbing a ciphertext and completing the pending block is GHASH of its padding. */
  lemma {:induction false} AbsorbIsGhash(h: Block, acc: Block, n: nat, c: Bytes)
    requires n % 16 == 0
    ensures var a := Absorb(h, acc, n, c);
            GhashOf(h, acc, PadBlock(c)) == if |c| % 16 != 0 then Mult(a, h) else a
    decreases |c|
  {
    if |c| < 16 {
      AbsorbShort(h, acc, n, c);
    } else {
      hide Xor, Mult, Place, AbsorbByte, Absorb, GhashOf, PadBlock;
      var x, y := c[..16], c[16..];
      assert c == x + y;
      AbsorbConcat(h, acc, n, x, y);
      AbsorbInBlock(h, acc, n, x);
      PlaceAtStart(x);
      PadFull(x);
      AbsorbIsGhash(h, Mult(Xor(acc, x), h), n + 16, y);
      PadSplit(c);
      GhashFirst(h, acc, x, PadBlock(y));
    }
  }

  lemma AbsorbShort(h: Block, acc: Block, n: nat, c: Bytes)
    requires n % 16 == 0 && |c| < 16
    ensures var a := Absorb(h, acc, n, c);
            GhashOf(h, acc, PadBlock(c)) == if |c| % 16 != 0 then Mult(a, h) else a
  {
    hide Xor, Mult, Place, AbsorbByte;
    if |c| == 0 {
      assert c == [] && PadBlock(c) == [];
    } else {
      AbsorbInBlock(h, acc, n, c);
      PlaceAtStart(c);
      GhashOne(h, acc, PadBlock(c));
    }
  }

  lemma PadFull(x: Bytes)
    requires |x| == 16
    ensures PadBlock(x) == x
  {
    assert Zeros(0) == [];
  }

  lemma PadSplit(c: Bytes)
    requires |c| >= 16
    ensures PadBlock(c) == c[..16] + PadBlock(c[16..])
    ensures |c| % 16 == |c[16..]| % 16
  {
    hide Zeros;
    assert (|c| - 16) % 16 == |c| % 16;
    assert c == c[..16] + c[16..];
  }

  lemma GhashFirst(h: Block, y: Block, first: Block, rest: Bytes)
    ensures GhashOf(h, y, first + rest) == GhashOf(h, Mult(Xor(y, first), h), rest)
  {
    assert (first + rest)[..16] == first && (first + rest)[16..] == rest;
  }

  lemma GhashOne(h: Block, y: Block, b: Block)
    ensures GhashOf(h, y, b) == Mult(Xor(y, b), h)
  {
    GhashFirst(h, y, b, []);
    assert b + [] == b;
  }

  lemma PlaceAtStart(c: Bytes)
    requires 0 < |c| <= 16
    ensures Place(0, c) == PadBlock(c)
  {
    assert Zeros(0) == [];
  }

  lemma {:induction false} GhashConcat(h: Block, y: Block, x: Bytes, last: Block)
    requires |x| % 16 == 0
    ensures GhashOf(h, y, x + last) == Mult(Xor(GhashOf(h, y, x), last), h)
    decreases |x|
  {
    hide Xor, Mult;
    if x == [] {
      assert x + last == last && last[..16] == last && last[16..] == [];
    } else {
      assert (x + last)[..16] == x[..16] && (x + last)[16..] == x[16..] + last;
      GhashConcat(h, Mult(Xor(y, x[..16]), h), x[16..], last);
    }
  }

  // ---- the streaming context ----

  class DecryptCtx {
    const aes: Block -> Block
    const iv: Bytes
    const acc: array<bv8>
    var bytesProcessed: u32

    /** The context after decrypting the ciphertext c, in any chunks. */
    ghost predicate After(c: Bytes)
      reads this, acc
    {
      && |iv| == 12 && acc.Length == 16 && bytesProcessed == |c|
      && acc[..] == Absorb(aes(ZERO), ZERO, 0, c)
    }

    /** eos_fw_decrypt_init once the key is known: H = AES_K(0). */
    constructor (aes: Block -> Block, iv: Bytes)
      requires |iv| == 12
      ensures After([]) && this.aes == aes && this.iv == iv && fresh(acc)
    {
      this.aes, this.iv, bytesProcessed := aes, iv, 0;
      acc := new bv8[16](_ => 0);
      new;
      assert acc[..] == ZERO;
    }

    /** The GHASH half of one iteration: whole blocks are multiplied in, partial ones deferred. */
    method AbsorbChunk(start: nat, c: Bytes, ghost n: nat)
      requires acc.Length == 16 && 0 < |c| && start == n % 16 && start + |c| <= 16
      modifies acc
      ensures acc[..] == Absorb(aes(ZERO), old(acc[..]), n, c)
    {
      hide Xor, Mult, Absorb, Place;
      ghost var a0 := acc[..];
      var block := Place(start, c);
      XorInto(acc, block);
      if start == 0 && |c| == 16 {
        GhashMult(acc, aes(ZERO));
      } else if start + |c| == 16 {
        GhashMult(acc, aes(ZERO));
      }
      AbsorbInBlock(aes(ZERO), a0, n, c);
    }

    /** The CTR half of one iteration. */
    method XorKeystream(data: array<bv8>, pos: nat, count: nat, blockOffset: u32, start: nat, ghost p: nat)
      requires |iv| == 12 && data != acc && pos + count <= data.Length && start + count <= 16
      requires start == p % 16 && blockOffset == p / 16
      modifies data
      ensures var d := old(data[..]);
              data[..] == d[..pos] + Gctr(aes, iv, p, d[pos..pos + count]) + d[pos + count..]
    {
      hide XorBv, CounterBlock, Key;
      ghost var d0 := data[..];
      var state := aes(CounterBlock(iv, blockOffset));
      for j := 0 to count
        invariant forall k :: 0 <= k < data.Length && !(pos <= k < pos + j) ==> data[k] == d0[k]
        invariant forall k :: pos <= k < pos + j ==> data[k] == XorBv(d0[k], Key(aes, iv, p + (k - pos)))
      {
        KeyOfBlock(aes, iv, p, j);
        data[pos + j] := XorBv(data[pos + j], state[start + j]);
      }
      ghost var x := d0[pos..pos + count];
      assert data[pos..pos + count] == Gctr(aes, iv, p, x);
      assert data[..] == data[..pos] + data[pos..pos + count] + data[pos + count..];
      assert data[..pos] == d0[..pos] && data[pos + count..] == d0[pos + count..];
    }

    /** The first pos bytes of d0 are done. */
    ghost predicate Partway(data: array<bv8>, c: Bytes, d0: Bytes, pos: nat)
      reads this, acc, data
    {
      && |iv| == 12 && acc.Length == 16 && data.Length == |d0| && pos <= |d0|
      && acc[..] == Absorb(aes(ZERO), ZERO, 0, c + d0[..pos])
      && data[..] == Gctr(aes, iv, |c|, d0[..pos]) + d0[pos..]
    }

    /** One iteration: ciphertext into GHASH first, then the key stream. */
    method Iterate(data: array<bv8>, pos: nat, toXor: nat, blockOffset: u32, start: nat, ghost c: Bytes,
        ghost d0: Bytes)
      requires data != acc && Partway(data, c, d0, pos) && pos + toXor <= |d0|
      requires 0 < toXor && start + toXor <= 16
      requires start == (|c| + pos) % 16 && blockOffset == (|c| + pos) / 16
      modifies acc, data
      ensures Partway(data, c, d0, pos + toXor)
    {
      hide Absorb, Gctr;
      PartwaySlice(data, c, d0, pos, toXor);
      ghost var before := data[..];
      AbsorbChunk(start, data[pos..pos + toXor], |c| + pos);
      AbsorbNext(aes(ZERO), c, d0, pos, toXor);
      assert data[..] == before;
      CtrPart(data, pos, toXor, blockOffset, start, c, d0);
    }

    lemma PartwaySlice(data: array<bv8>, c: Bytes, d0: Bytes, pos: nat, count: nat)
      requires Partway(data, c, d0, pos) && pos + count <= |d0|
      ensures data[pos..pos + count] == d0[pos..pos + count]
    {
      hide Gctr;
      var y := Gctr(aes, iv, |c|, d0[..pos]);
      assert data[pos..pos + count] == data[..][pos..pos + count] == (y + d0[pos..])[pos..pos + count];
    }

    method CtrPart(data: array<bv8>, pos: nat, toXor: nat, blockOffset: u32, start: nat, ghost c: Bytes,
        ghost d0: Bytes)
      requires |iv| == 12 && data != acc && data.Length == |d0| && pos + toXor <= |d0| && start + toXor <= 16
      requires start == (|c| + pos) % 16 && blockOffset == (|c| + pos) / 16
      requires data[..] == Gctr(aes, iv, |c|, d0[..pos]) + d0[pos..]
      modifies data
      ensures data[..] == Gctr(aes, iv, |c|, d0[..pos + toXor]) + d0[pos + toXor..]
    {
      hide Gctr;
      ghost var y, part := Gctr(aes, iv, |c|, d0[..pos]), Gctr(aes, iv, |c| + pos, d0[pos..pos + toXor]);
      GctrTo(aes, iv, |c|, d0, pos, toXor);
      ghost var d := data[..];
      SplitAt(y, d0, pos, toXor, d);
      assert Gctr(aes, iv, |c| + pos, d[pos..pos + toXor]) == part;
      XorKeystream(data, pos, toXor, blockOffset, start, |c| + pos);
      assert data[..] == d[..pos] + part + d[pos + toXor..];
    }

    /** eos_fw_decrypt_update: the plaintext is GCTR at the stream position, and the context
        depends only on the ciphertext consumed so far. */
    method Update(data: array<bv8>, ghost c: Bytes)
      requires After(c) && data != acc && |c| + data.Length < 0x1_0000_0000
      modifies this, acc, data
      ensures After(c + old(data[..]))
      ensures data[..] == Gctr(aes, iv, |c|, old(data[..]))
    {
      hide Absorb, Gctr, Partway;
      ghost var d0 := data[..];
      var len: u32 := data.Length;
      var blockOffset: u32 := bytesProcessed / 16;
      var byteOffset: nat := bytesProcessed % 16;
      var pos := 0;
      StartPartway(data, c);
      while pos < len
        invariant 0 <= pos <= len && bytesProcessed == |c|
        invariant pos < len ==> byteOffset == (|c| + pos) % 16 && blockOffset == (|c| + pos) / 16
        invariant Partway(data, c, d0, pos)
      {
        var toXor := if len - pos < 16 - byteOffset then len - pos else 16 - byteOffset;
        Iterate(data, pos, toXor, blockOffset, byteOffset, c, d0);
        if pos + toXor < len { NextBlock(|c| + pos, toXor); }
        pos := pos + toXor;
        byteOffset := 0;
        blockOffset := blockOffset + 1;
      }
      EndPartway(data, c, d0);
      bytesProcessed := bytesProcessed + len;
    }

    lemma StartPartway(data: array<bv8>, c: Bytes)
      requires After(c)
      ensures Partway(data, c, data[..], 0)
    {
      assert c + data[..][..0] == c;
      GctrEmpty(aes, iv, |c|, data[..]);
    }

    lemma EndPartway(data: array<bv8>, c: Bytes, d0: Bytes)
      requires Partway(data, c, d0, |d0|)
      ensures acc[..] == Absorb(aes(ZERO), ZERO, 0, c + d0) && data[..] == Gctr(aes, iv, |c|, d0)
    {
      assert d0[..|d0|] == d0 && d0[|d0|..] == [];
    }

    /** eos_fw_decrypt_final: accepts exactly the tag of the ciphertext consumed. */
    method Final(expected: Block, ghost c: Bytes) returns (ok: bool)
      requires After(c)
      modifies acc
      ensures ok <==> expected == Tag(aes, iv, c)
    {
      hide Xor, Mult, Absorb, GhashOf, Be, PadBlock, Zeros;
      var h := aes(ZERO);
      AbsorbIsGhash(h, ZERO, 0, c);
      if bytesProcessed % 16 != 0 { GhashMult(acc, h); }
      var lenBlock := LengthBlock();
      XorInto(acc, lenBlock);
      GhashMult(acc, h);
      PadWhole(c);
      GhashConcat(h, ZERO, PadBlock(c), lenBlock);
      var j0: Block := iv + Be(1, 4);
      ok := SameTag(Xor(acc[..], aes(j0)), expected);
    }

    /** No additional data, and the ciphertext length in bits. */
    method LengthBlock() returns (block: Block)
      ensures block == Zeros(8) + Be(8 * bytesProcessed as int, 8)
    {
      hide Be;
      var cBits: u64 := bytesProcessed * 8;
      block := Zeros(8) + Be(cBits, 8);
    }
  }

  /** The comparison that does not stop at the first difference. */
  method SameTag(tag: Block, expected: Block) returns (ok: bool)
    ensures ok <==> expected == tag
  {
    ok := true;
    for i := 0 to 16
      invariant ok <==> forall k :: 0 <= k < i ==> tag[k] == expected[k]
    {
      ok := ok && tag[i] == expected[i];
    }
    if ok { assert tag == expected; }
  }

  lemma AbsorbNext(h: Block, c: Bytes, d0: Bytes, pos: nat, count: nat)
    requires pos + count <= |d0|
    ensures Absorb(h, Absorb(h, ZERO, 0, c + d0[..pos]), |c| + pos, d0[pos..pos + count])
         == Absorb(h, ZERO, 0, c + d0[..pos + count])
  {
    hide Absorb;
    AbsorbConcat(h, ZERO, 0, c + d0[..pos], d0[pos..pos + count]);
    assert c + d0[..pos] + d0[pos..pos + count] == c + d0[..pos + count];
  }

  lemma GctrTo(aes: Block -> Block, iv: Bytes, p: nat, d: Bytes, pos: nat, n: nat)
    requires |iv| == 12 && pos + n <= |d|
    ensures Gctr(aes, iv, p, d[..pos + n]) == Gctr(aes, iv, p, d[..pos]) + Gctr(aes, iv, p + pos, d[pos..pos + n])
  {
    hide Gctr;
    GctrConcat(aes, iv, p, d[..pos], d[pos..pos + n]);
    assert d[..pos] + d[pos..pos + n] == d[..pos + n];
  }

  lemma SplitAt(y: Bytes, d0: Bytes, pos: nat, count: nat, d: Bytes)
    requires |y| == pos && pos + count <= |d0| && d == y + d0[pos..]
    ensures d[..pos] == y && d[pos..pos + count] == d0[pos..pos + count] && d[pos + count..] == d0[pos + count..]
  {
  }

  lemma PadWhole(c: Bytes)
    ensures |PadBlock(c)| % 16 == 0
  {
  }

  /** Key stream bytes inside one block come from one counter block. */
  lemma KeyOfBlock(aes: Block -> Block, iv: Bytes, p: nat, k: nat)
    requires |iv| == 12 && p % 16 + k < 16
    ensures Key(aes, iv, p + k) == aes(CounterBlock(iv, p / 16))[p % 16 + k]
  {
    hide CounterBlock;
    assert (p + k) / 16 == p / 16 && (p + k) % 16 == p % 16 + k;
  }

  lemma GctrEmpty(aes: Block -> Block, iv: Bytes, n: nat, d: Bytes)
    requires |iv| == 12
    ensures Gctr(aes, iv, n, d[..0]) + d[0..] == d
  {
  }

  lemma NextBlock(p: nat, count: nat)
    requires p % 16 + count == 16
    ensures (p + count) / 16 == p / 16 + 1 && (p + count) % 16 == 0
  {
  }
}
