/** The streaming SHA-256 context (core/crypto_boot.c, lines 81-127 and 174-202). */
module Sha256 {
  import opened Types
  import opened Sha2
  import opened Flash

  lemma BlockFull<S>(f: (S, seq<byte>) -> S, init: S, m: seq<byte>, b: byte)
    requires (|m| + 1) % 64 == 0
    ensures Whole(|m| + 1, 64) == |m| + 1 && |m| % 64 == 63
    ensures Chain(f, 64, init, m + [b]) == f(Chain(f, 64, init, m[..Whole(|m|, 64)]), m[Whole(|m|, 64)..] + [b])
  {
    hide Chain, Whole;
    LastOfBlock(|m|);
    var w := Whole(|m|, 64);
    var last := m[w..] + [b];
    assert m + [b] == m[..w] + last;
    ChainConcat(f, 64, init, m[..w], last);
    ChainOne(f, 64, Chain(f, 64, init, m[..w]), last);
  }

  lemma LastOfBlock(n: nat)
    requires (n + 1) % 64 == 0
    ensures n % 64 == 63 && Whole(n + 1, 64) == n + 1
  {
  }

  lemma NotFull(n: nat)
    requires (n + 1) % 64 != 0
    ensures (n + 1) % 64 == n % 64 + 1 && Whole(n + 1, 64) == Whole(n, 64)
  {
  }

  class Sha256Ctx<S> {
    const f: (S, seq<byte>) -> S
    const init: S
    var state: S
    var count: u64
    const buffer: array<byte>

    /** The context after consuming m, in any pieces. */
    ghost predicate After(m: seq<byte>)
      reads this, buffer
    {
      && buffer.Length == 64 && count == |m|
      && state == Chain(f, 64, init, m[..Whole(|m|, 64)])
      && buffer[..|m| % 64] == m[Whole(|m|, 64)..]
    }

    constructor (f: (S, seq<byte>) -> S, init: S)
      ensures After([]) && fresh(buffer) && this.f == f && this.init == init
    {
      this.f, this.init, state, count := f, init, init, 0;
      buffer := new byte[64];
    }

    /** One byte of eos_sha256_update. */
    method Push(b: byte, ghost m: seq<byte>)
      requires After(m) && |m| + 1 < 0x1_0000_0000_0000_0000
      modifies this, buffer
      ensures After(m + [b])
    {
      hide Chain, Whole;
      ghost var r, w := |m| % 64, Whole(|m|, 64);
      ghost var tail := buffer[..r];
      buffer[count % 64] := b;
      count := count + 1;
      assert buffer[..r + 1] == tail + [b];
      if count % 64 == 0 {
        BlockFull(f, init, m, b);
        assert buffer[..64] == buffer[..];
        state := f(state, buffer[..]);
        assert (m + [b])[..|m| + 1] == m + [b];
        assert buffer[..0] == (m + [b])[|m| + 1..];
      } else {
        NotFull(|m|);
        assert (m + [b])[..w] == m[..w];
        assert (m + [b])[w..] == m[w..] + [b];
      }
    }

    /** eos_sha256_update: the context depends only on the bytes consumed so far. */
    method Update(data: seq<byte>, ghost m: seq<byte>)
      requires After(m) && |m| + |data| < 0x1_0000_0000_0000_0000
      modifies this, buffer
      ensures After(m + data)
    {
      hide After;
      assert m + data[..0] == m;
      for i := 0 to |data|
        invariant After(m + data[..i])
      {
        Push(data[i], m + data[..i]);
        assert m + data[..i] + [data[i]] == m + data[..i + 1];
      }
      assert m + data[..|data|] == m + data;
    }

    /** eos_sha256_final: the hash of the padded message, with an extra block when the
        length does not fit behind the data. */
    method Final(ghost m: seq<byte>) returns (h: S)
      requires After(m) && |m| < 0x2000_0000_0000_0000
      modifies this, buffer
      ensures h == Hash(f, init, m, 64, 8)
    {
      hide Chain, BigEndian, Hash, Zeros;
      var bits: u64 := count * 8;
      var r: nat := count % 64;
      ghost var body, tail := m[..Whole(|m|, 64)], m[Whole(|m|, 64)..];
      assert m == body + tail;
      buffer[r] := 0x80;
      assert buffer[..r + 1] == tail + [0x80];
      if r + 1 > 56 {
        ExtraBlock(r + 1, tail + [0x80]);
        assert buffer[..0] == [];
        LastBlock(0, bits, []);
        assert [] + Zeros(56) + BigEndian(bits, 8) == Zeros(56) + BigEndian(bits, 8);
        TwoBlocks(f, init, body, tail, 64, 8);
      } else {
        LastBlock(r + 1, bits, tail + [0x80]);
        OneBlock(f, init, body, tail, 64, 8);
      }
      h := state;
    }

    /** The length does not fit behind the marker: zeros to the end of the block, and on to the next. */
    method ExtraBlock(p: nat, ghost start: seq<byte>)
      requires buffer.Length == 64 && p <= 64 && buffer[..p] == start
      modifies this`state, buffer
      ensures state == f(old(state), start + Zeros(64 - p))
    {
      hide Zeros;
      Fill(p, 64);
      assert buffer[..64] == buffer[..];
      state := f(state, buffer[..]);
    }

    /** Zeros up to the length, the length, and the last block. */
    method LastBlock(p: nat, bits: u64, ghost start: seq<byte>)
      requires buffer.Length == 64 && p <= 56 && buffer[..p] == start
      modifies this`state, buffer
      ensures state == f(old(state), start + Zeros(56 - p) + BigEndian(bits, 8))
    {
      hide Zeros, BigEndian;
      Fill(p, 56);
      StoreLength(bits);
      assert buffer[..] == buffer[..56] + buffer[56..];
      state := f(state, buffer[..]);
    }

    method Fill(from: nat, to: nat)
      requires buffer.Length == 64 && from <= to <= 64
      modifies buffer
      ensures buffer[..from] == old(buffer[..from]) && buffer[from..to] == Zeros(to - from)
      ensures buffer[..to] == old(buffer[..from]) + Zeros(to - from)
    {
      for i := from to to
        invariant buffer[..from] == old(buffer[..from])
        invariant forall k :: from <= k < i ==> buffer[k] == 0
      {
        buffer[i] := 0;
      }
      assert buffer[..to] == buffer[..from] + buffer[from..to];
    }

    /** The bit length, most significant byte first, in the last eight bytes. */
    method StoreLength(bits: u64)
      requires buffer.Length == 64
      modifies buffer
      ensures buffer[..56] == old(buffer[..56])
      ensures buffer[56..] == BigEndian(bits, 8)
    {
      var v: int := bits;
      for i := 0 to 8
        invariant v >= 0 && buffer[..56] == old(buffer[..56])
        invariant BigEndian(bits, 8) == BigEndian(v, 8 - i) + buffer[64 - i..]
      {
        buffer[63 - i] := v % 256;
        assert buffer[64 - (i + 1)..] == [buffer[63 - i]] + buffer[64 - i..];
        v := v / 256;
      }
    }
  }

  /** Two updates and a final: the hash of the concatenation. */
  method HashTwo<S>(f: (S, seq<byte>) -> S, init: S, a: seq<byte>, b: seq<byte>) returns (h: S)
    requires |a| + |b| < 0x1_0000_0000
    ensures h == Hash(f, init, a + b, 64, 8)
  {
    hide Hash, Chain, Sha256Ctx.After;
    var ctx := new Sha256Ctx(f, init);
    ctx.Update(a, []);
    assert [] + a == a;
    ctx.Update(b, a);
    h := ctx.Final(a + b);
  }

  lemma Grows(cells: seq<byte>, addr: nat, m: seq<byte>, data: seq<byte>)
    requires addr + |m| + |data| <= |cells| && m == cells[addr..addr + |m|]
    requires data == cells[addr + |m|..addr + |m| + |data|]
    ensures m + data == cells[addr..addr + (|m| + |data|)]
  {
  }

  /** The chunked flash loop hashes exactly the region it covers. */
  method HashRegion<S>(flash: FlashDevice, f: (S, seq<byte>) -> S, init: S, addr: nat, size: nat, chunkSize: nat)
      returns (rc: int, h: S)
    requires 0 < size < 0x1_0000_0000 && chunkSize > 0
    modifies flash`readFaults
    ensures rc == OK ==> flash.Holds(addr, size) && h == Hash(f, init, flash.cells[addr..addr + size], 64, 8)
    ensures flash.readFaults >= old(flash.readFaults)
    ensures flash.readFaults == old(flash.readFaults) ==> (rc == OK <==> flash.Holds(addr, size))
  {
    hide Hash, Chain, Sha256Ctx.After;
    var ctx := new Sha256Ctx(f, init);
    var offset := 0;
    rc, h := OK, init;
    ghost var m: seq<byte> := [];
    while offset < size
      invariant 0 <= offset <= size && |m| == offset
      invariant offset > 0 ==> flash.Holds(addr, offset)
      invariant flash.Holds(addr, offset) ==> m == flash.cells[addr..addr + offset]
      invariant ctx.After(m) && ctx.f == f && ctx.init == init && fresh(ctx) && fresh(ctx.buffer)
      invariant flash.readFaults == old(flash.readFaults)
    {
      var chunk := size - offset;
      if chunk > chunkSize { chunk := chunkSize; }
      var data;
      rc, data := flash.Read(addr + offset, chunk);
      if rc != OK { return; }
      ctx.Update(data, m);
      Grows(flash.cells, addr, m, data);
      m := m + data;
      offset := offset + chunk;
    }
    h := ctx.Final(m);
    rc := OK;
  }

  /** eos_crypto_verify_image: unless a read fails, accepts exactly the regions whose digest
      is the expected one. */
  method VerifyImage<S>(flash: FlashDevice, f: (S, seq<byte>) -> S, init: S, render: S -> seq<byte>,
                        addr: nat, size: nat, expected: seq<byte>) returns (rc: int)
    requires size < 0x1_0000_0000
    modifies flash`readFaults
    ensures rc == OK ==> size > 0 && flash.Holds(addr, size)
                         && render(Hash(f, init, flash.cells[addr..addr + size], 64, 8)) == expected
    ensures flash.readFaults >= old(flash.readFaults)
    ensures flash.readFaults == old(flash.readFaults) && size > 0 && flash.Holds(addr, size) ==>
              rc == if render(Hash(f, init, flash.cells[addr..addr + size], 64, 8)) == expected then OK
                  else ERR_SIGNATURE
  {
    hide Hash;
    if size == 0 { return ERR_INVALID; }
    var h;
    rc, h := HashRegion(flash, f, init, addr, size, 256);
    if rc != OK { return ERR_FLASH; }
    if render(h) != expected { return ERR_SIGNATURE; }
  }
}
