/** The streaming SHA-512 context (core/sha512.c, lines 170-247). */
module Sha512 {
  import opened Types
  import opened Sha2

  const W64 := 0x1_0000_0000_0000_0000
  const W128 := 0x1_0000_0000_0000_0000_0000_0000_0000_0000

  /** Two 64-bit words counting n bytes in bits, modulo 2^128. */
  ghost predicate Counts(high: int, low: int, n: nat) {
    high * W64 + low == 8 * n % W128
  }

  lemma AddWithCarry(high: u64, low: u64, n: nat, copy: nat)
    requires Counts(high, low, n) && copy <= 128
    ensures var low' := (low + 8 * copy) % W64;
            Counts(if low' < low then (high + 1) % W64 else high, low', n + copy)
  {
    var q := 8 * n / W128;
    assert 8 * (n + copy) == q * W128 + (high * W64 + low + 8 * copy);
    if low + 8 * copy < W64 {
      Wraps(8 * (n + copy), q, high * W64 + low + 8 * copy);
    } else if high + 1 < W64 {
      Wraps(8 * (n + copy), q, (high + 1) * W64 + (low + 8 * copy - W64));
    } else {
      Wraps(8 * (n + copy), q + 1, low + 8 * copy - W64);
    }
  }

  lemma Wraps(v: int, q: int, r: int)
    requires v == q * W128 + r && 0 <= r < W128
    ensures v % W128 == r
  {
  }

  lemma FullLength(n: nat, c: nat)
    requires n % 128 + c == 128
    ensures (n + c) % 128 == 0 && Whole(n + c, 128) == n + c
  {
  }

  lemma BlockFull<S>(f: (S, seq<byte>) -> S, init: S, m: seq<byte>, c: seq<byte>, w: nat)
    requires w <= |m| && w % 128 == 0 && |m| - w + |c| == 128
    ensures Chain(f, 128, init, m + c) == f(Chain(f, 128, init, m[..w]), m[w..] + c)
  {
    assert m + c == m[..w] + (m[w..] + c);
    LastBlock(f, init, m[..w], m[w..] + c);
  }

  lemma LastBlock<S>(f: (S, seq<byte>) -> S, init: S, body: seq<byte>, last: seq<byte>)
    requires |body| % 128 == 0 && |last| == 128
    ensures Chain(f, 128, init, body + last) == f(Chain(f, 128, init, body), last)
  {
    hide Chain;
    ChainConcat(f, 128, init, body, last);
    ChainOne(f, 128, Chain(f, 128, init, body), last);
  }

  lemma NotFull(n: nat, c: nat)
    requires n % 128 + c < 128
    ensures (n + c) % 128 == n % 128 + c && Whole(n + c, 128) == Whole(n, 128)
  {
  }

  lemma LengthFits(high: int, low: int, n: nat)
    requires Counts(high, low, n) && 8 * n < W128
    ensures 8 * n == high * W64 + low
  {
  }

  class Sha512Ctx<S> {
    const f: (S, seq<byte>) -> S
    const init: S
    var state: S
    var bitlenHigh: u64
    var bitlenLow: u64
    const buffer: array<byte>
    var bufferLen: nat

    /** The context after consuming m, in any pieces; the two words are the bit length modulo 2^128. */
    ghost predicate After(m: seq<byte>)
      reads this, buffer
    {
      && buffer.Length == 128 && bufferLen == |m| % 128
      && Counts(bitlenHigh, bitlenLow, |m|)
      && state == Chain(f, 128, init, m[..Whole(|m|, 128)])
      && buffer[..bufferLen] == m[Whole(|m|, 128)..]
    }

    constructor (f: (S, seq<byte>) -> S, init: S)
      ensures After([]) && fresh(buffer) && this.f == f && this.init == init
    {
      this.f, this.init, state, bitlenHigh, bitlenLow, bufferLen := f, init, init, 0, 0, 0;
      buffer := new byte[128];
    }

    /** Add to the 128-bit length, carrying into the high word. */
    method AddBits(copy: nat, ghost n: nat)
      requires copy <= 128 && Counts(bitlenHigh, bitlenLow, n)
      modifies this`bitlenHigh, this`bitlenLow
      ensures Counts(bitlenHigh, bitlenLow, n + copy)
    {
      hide Counts;
      AddWithCarry(bitlenHigh, bitlenLow, n, copy);
      var bits: u64 := 8 * copy;
      var oldLow := bitlenLow;
      bitlenLow := (bitlenLow + bits) % W64;
      if bitlenLow < oldLow { bitlenHigh := (bitlenHigh + 1) % W64; }
    }

    /** memcpy into the free part of the buffer. */
    method CopyIn(c: seq<byte>)
      requires buffer.Length == 128 && bufferLen + |c| <= 128
      modifies buffer
      ensures buffer[..bufferLen + |c|] == old(buffer[..bufferLen]) + c
    {
      for i := 0 to |c|
        invariant buffer[..bufferLen + i] == old(buffer[..bufferLen]) + c[..i]
      {
        buffer[bufferLen + i] := c[i];
        assert buffer[..bufferLen + (i + 1)] == buffer[..bufferLen + i] + [c[i]];
      }
      assert c[..|c|] == c;
    }

    /** One round of the copy loop: fill the buffer as far as the chunk goes. */
    method Absorb(c: seq<byte>, ghost m: seq<byte>)
      requires After(m) && 0 < |c| <= 128 - bufferLen
      modifies this, buffer
      ensures After(m + c)
    {
      hide Chain, Whole, Counts;
      ghost var w := Whole(|m|, 128);
      ghost var tail := buffer[..bufferLen];
      CopyIn(c);
      bufferLen := bufferLen + |c|;
      AddBits(|c|, |m|);
      if bufferLen == 128 {
        FullLength(|m|, |c|);
        BlockFull(f, init, m, c, w);
        assert buffer[..128] == buffer[..];
        state := f(state, buffer[..]);
        bufferLen := 0;
        assert (m + c)[..|m| + |c|] == m + c;
        assert buffer[..0] == (m + c)[|m| + |c|..];
      } else {
        NotFull(|m|, |c|);
        assert (m + c)[..w] == m[..w];
        assert (m + c)[w..] == m[w..] + c;
      }
    }

    /** eos_sha512_update: the context depends only on the bytes consumed so far. */
    method Update(data: seq<byte>, ghost m: seq<byte>)
      requires After(m)
      modifies this, buffer
      ensures After(m + data)
    {
      var done := 0;
      assert m + data[..0] == m;
      while done < |data|
        invariant 0 <= done <= |data| && After(m + data[..done])
      {
        var copy := 128 - bufferLen;
        if copy > |data| - done { copy := |data| - done; }
        ghost var sofar := m + data[..done];
        Absorb(data[done..done + copy], sofar);
        assert sofar + data[done..done + copy] == m + data[..done + copy];
        done := done + copy;
      }
      assert m + data[..done] == m + data;
    }

    /** eos_sha512_final. */
    method Final(ghost m: seq<byte>) returns (h: S)
      requires After(m) && 8 * |m| < W128
      modifies this, buffer
      ensures h == Hash(f, init, m, 128, 16)
    {
      hide Chain, BigEndian, Hash, Whole, Counts, Zeros;
      LengthFits(bitlenHigh, bitlenLow, |m|);
      LengthWords(bitlenHigh, bitlenLow, 8 * |m|);
      var r := bufferLen;
      ghost var body, tail := m[..Whole(|m|, 128)], m[Whole(|m|, 128)..];
      assert m == body + tail;
      buffer[r] := 0x80;
      assert buffer[..r + 1] == tail + [0x80];
      if r + 1 > 112 {
        ExtraBlock(r + 1, tail + [0x80]);
        assert buffer[..0] == [];
        LastBlock(0, [], 8 * |m|);
        assert [] + Zeros(112) + BigEndian(8 * |m|, 16) == Zeros(112) + BigEndian(8 * |m|, 16);
        TwoBlocks(f, init, body, tail, 128, 16);
      } else {
        LastBlock(r + 1, tail + [0x80], 8 * |m|);
        OneBlock(f, init, body, tail, 128, 16);
      }
      h := state;
    }

    /** The length does not fit behind the marker: zeros to the end of the block, and on to the next. */
    method ExtraBlock(p: nat, ghost start: seq<byte>)
      requires buffer.Length == 128 && p <= 128 && buffer[..p] == start
      modifies this`state, buffer
      ensures state == f(old(state), start + Zeros(128 - p))
    {
      hide Zeros;
      Fill(p, 128);
      assert buffer[..128] == buffer[..];
      state := f(state, buffer[..]);
    }

    /** Zeros up to the length, the length, and the last block. */
    method LastBlock(p: nat, ghost start: seq<byte>, ghost bits: nat)
      requires buffer.Length == 128 && p <= 112 && buffer[..p] == start
      requires BigEndian(bitlenHigh, 8) + BigEndian(bitlenLow, 8) == BigEndian(bits, 16)
      modifies this`state, buffer
      ensures state == f(old(state), start + Zeros(112 - p) + BigEndian(bits, 16))
    {
      hide Zeros, BigEndian;
      Fill(p, 112);
      StoreLength(bitlenHigh, bitlenLow);
      assert buffer[..] == buffer[..112] + buffer[112..];
      state := f(state, buffer[..]);
    }

    method Fill(from: nat, to: nat)
      requires buffer.Length == 128 && from <= to <= 128
      modifies buffer
      ensures buffer[..from] == old(buffer[..from]) && buffer[from..to] == Zeros(to - from)
      ensures buffer[..to] == old(buffer[..from]) + Zeros(to - from)
    {
      for i := from to to
        invariant buffer[..from] == old(buffer[..from])
        invariant forall k :: from <= k < i ==> buffer[k] == 0
      {
        buffer[i] := 0;
      }
      assert buffer[..to] == buffer[..from] + buffer[from..to];
    }

    method StoreLength(high: u64, low: u64)
      requires buffer.Length == 128
      modifies buffer
      ensures buffer[..112] == old(buffer[..112])
      ensures buffer[112..] == BigEndian(high, 8) + BigEndian(low, 8)
    {
      StoreBe64(high, 112);
      ghost var b := buffer[..120];
      assert b == b[..112] + BigEndian(high, 8);
      StoreBe64(low, 120);
      assert buffer[..120] == b;
      assert buffer[112..] == b[112..] + buffer[120..128];
      assert buffer[..112] == b[..112];
    }

    /** store_be64. */
    method StoreBe64(word: u64, at: nat)
      requires buffer.Length == 128 && at + 8 <= 128
      modifies buffer
      ensures buffer[..at] == old(buffer[..at]) && buffer[at + 8..] == old(buffer[at + 8..])
      ensures buffer[at..at + 8] == BigEndian(word, 8)
    {
      var v: int := word;
      for i := 0 to 8
        invariant v >= 0 && buffer[..at] == old(buffer[..at]) && buffer[at + 8..] == old(buffer[at + 8..])
        invariant BigEndian(word, 8) == BigEndian(v, 8 - i) + buffer[at + 8 - i..at + 8]
      {
        buffer[at + 7 - i] := v % 256;
        assert buffer[at + 8 - (i + 1)..at + 8] == [buffer[at + 7 - i]] + buffer[at + 8 - i..at + 8];
        v := v / 256;
      }
    }
  }

  function Shifted(v: nat, n: nat): nat {
    if n == 0 then v else Shifted(v / 256, n - 1)
  }

  lemma {:induction false} BigEndianSplit(v: nat, a: nat, n: nat)
    ensures BigEndian(v, a + n) == BigEndian(Shifted(v, n), a) + BigEndian(v, n)
  {
    if n != 0 {
      BigEndianSplit(v / 256, a, n - 1);
    }
  }

  /** The two stored words are the sixteen bytes of the length. */
  lemma LengthWords(high: u64, low: u64, len: nat)
    requires len == high * W64 + low
    ensures BigEndian(high, 8) + BigEndian(low, 8) == BigEndian(len, 16)
  {
    BigEndianSplit(len, 8, 8);
    ShiftedWord(len);
    assert len / W64 == high;
    LowWord(len, low, high);
  }

  lemma ShiftedWord(v: nat)
    ensures Shifted(v, 8) == v / W64
  {
    var v1, v2, v3, v4 := v / 256, v / 256 / 256, v / 256 / 256 / 256, v / 256 / 256 / 256 / 256;
    assert Shifted(v, 8) == Shifted(v1, 7) == Shifted(v2, 6) == Shifted(v3, 5) == Shifted(v4, 4);
    var v5, v6, v7 := v4 / 256, v4 / 256 / 256, v4 / 256 / 256 / 256;
    assert Shifted(v4, 4) == Shifted(v5, 3) == Shifted(v6, 2) == Shifted(v7, 1) == Shifted(v7 / 256, 0);
    assert v4 == v / 0x1_0000_0000 && v7 / 256 == v4 / 0x1_0000_0000;
  }

  /** Bytes below 2^64 do not see a multiple of 2^64. */
  lemma LowWord(len: nat, low: nat, high: nat)
    requires len == high * W64 + low && low < W64
    ensures BigEndian(len, 8) == BigEndian(low, 8)
  {
    LowBytes(len, low, high, 8);
  }

  function Pow256(n: nat): nat { if n == 0 then 1 else 256 * Pow256(n - 1) }

  lemma {:induction false} LowBytes(v: nat, low: nat, k: nat, n: nat)
    requires v == low + k * Pow256(n)
    ensures BigEndian(v, n) == BigEndian(low, n)
  {
    if n != 0 {
      var w := k * Pow256(n - 1);
      assert v == low + 256 * w;
      LowBytes(v / 256, low / 256, k, n - 1);
    }
  }
}
