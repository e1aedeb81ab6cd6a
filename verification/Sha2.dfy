/** Padding and chaining of SHA-2 (FIPS 180-4, sections 5.1, 6.2 and 6.4). The compression
    function is a parameter: nothing below depends on its rounds. */
module Sha2 {
  import opened Types

  /** Big-endian bytes of v. */
  function BigEndian(v: nat, n: nat): (s: seq<byte>)
    ensures |s| == n
  {
    if n == 0 then [] else BigEndian(v / 256, n - 1) + [v % 256]
  }

  function Zeros(n: nat): (s: seq<byte>)
    ensures |s| == n && forall i :: 0 <= i < n ==> s[i] == 0
  {
    seq(n, _ => 0)
  }

  /** Block sizes of SHA-256 and SHA-512, in bytes. */
  type BlockSize = b: nat | b == 64 || b == 128 witness 64

  /** The bytes of an n-byte message that fill whole blocks. */
  function Whole(n: nat, b: BlockSize): (w: nat)
    ensures w <= n && n - w == n % b && w % b == 0
  {
    n - n % b
  }

  /** Chaining over whole blocks. */
  function Chain<S>(f: (S, seq<byte>) -> S, b: BlockSize, s: S, m: seq<byte>): S
    decreases |m|
  {
    if |m| < b then s else Chain(f, b, f(s, m[..b]), m[b..])
  }

  lemma {:induction false} ChainConcat<S>(f: (S, seq<byte>) -> S, b: BlockSize, s: S, m: seq<byte>, t: seq<byte>)
    requires |m| % b == 0
    ensures Chain(f, b, s, m + t) == Chain(f, b, Chain(f, b, s, m), t)
    decreases |m|
  {
    if |m| < b {
      assert m + t == t;
    } else {
      assert (m + t)[..b] == m[..b] && (m + t)[b..] == m[b..] + t;
      ChainConcat(f, b, f(s, m[..b]), m[b..], t);
    }
  }

  lemma ChainOne<S>(f: (S, seq<byte>) -> S, b: BlockSize, s: S, m: seq<byte>)
    requires |m| == b
    ensures Chain(f, b, s, m) == f(s, m)
  {
    assert m[..b] == m && m[b..] == [];
  }

  /** Section 5.1: a one bit, the least run of zero bits that aligns, and the bit length. */
  function Padding(len: nat, b: BlockSize, lenBytes: nat): (p: seq<byte>)
    requires 0 < lenBytes < b
  {
    [0x80] + Zeros((2 * b - lenBytes - 1 - len % b) % b) + BigEndian(8 * len, lenBytes)
  }

  /** The hash of a message, up to the rendering of the final state. */
  function Hash<S>(f: (S, seq<byte>) -> S, init: S, m: seq<byte>, b: BlockSize, lenBytes: nat): S
    requires 0 < lenBytes < b
  {
    Chain(f, b, init, m + Padding(|m|, b, lenBytes))
  }

  lemma TailLength(x: nat, r: nat, b: BlockSize)
    requires x % b == 0 && r < b
    ensures (x + r) % b == r
  {
    if b == 64 {} else {}
  }

  /** The number of zero bytes in the padding, in the two cases. */
  lemma ZeroCount(r: nat, b: BlockSize, lenBytes: nat)
    requires r < b && (lenBytes == 8 || lenBytes == 16)
    ensures r + 1 + lenBytes <= b ==> (2 * b - lenBytes - 1 - r) % b == b - lenBytes - 1 - r
    ensures r + 1 + lenBytes > b ==> (2 * b - lenBytes - 1 - r) % b == 2 * b - lenBytes - 1 - r
  {
    if b == 64 {} else {}
  }

  /** The final block when the length fits behind the data and the marker. */
  lemma OneBlock<S>(f: (S, seq<byte>) -> S, init: S, body: seq<byte>, tail: seq<byte>, b: BlockSize, lenBytes: nat)
    requires |body| % b == 0 && |tail| < b && (lenBytes == 8 || lenBytes == 16) && |tail| + 1 + lenBytes <= b
    ensures Hash(f, init, body + tail, b, lenBytes)
         == f(Chain(f, b, init, body),
              tail + [0x80] + Zeros(b - lenBytes - 1 - |tail|) + BigEndian(8 * (|body| + |tail|), lenBytes))
  {
    hide Chain, BigEndian, Zeros;
    var m := body + tail;
    TailLength(|body|, |tail|, b);
    ZeroCount(|tail|, b, lenBytes);
    var last := tail + [0x80] + Zeros(b - lenBytes - 1 - |tail|) + BigEndian(8 * |m|, lenBytes);
    assert m + Padding(|m|, b, lenBytes) == body + last;
    ChainConcat(f, b, init, body, last);
    ChainOne(f, b, Chain(f, b, init, body), last);
  }

  lemma ZerosSplit(x: nat, y: nat)
    ensures Zeros(x + y) == Zeros(x) + Zeros(y)
  {
  }

  lemma PaddedTwice(body: seq<byte>, tail: seq<byte>, b: BlockSize, lenBytes: nat)
    requires |body| % b == 0 && |tail| < b && (lenBytes == 8 || lenBytes == 16) && |tail| + 1 + lenBytes > b
    ensures var n := |body| + |tail|;
            var one, two := tail + [0x80] + Zeros(b - 1 - |tail|), Zeros(b - lenBytes) + BigEndian(8 * n, lenBytes);
            body + tail + Padding(n, b, lenBytes) == body + (one + two)
  {
    hide BigEndian, Zeros;
    TailLength(|body|, |tail|, b);
    ZeroCount(|tail|, b, lenBytes);
    ZerosSplit(b - 1 - |tail|, b - lenBytes);
    var len := BigEndian(8 * (|body| + |tail|), lenBytes);
    Regrouped(body, tail, [0x80], Zeros(b - 1 - |tail|), Zeros(b - lenBytes), len);
  }

  lemma Regrouped(a: seq<byte>, b: seq<byte>, c: seq<byte>, d: seq<byte>, e: seq<byte>, f: seq<byte>)
    ensures a + b + (c + (d + e) + f) == a + ((b + c + d) + (e + f))
  {
  }

  /** The two final blocks when it does not. */
  lemma TwoBlocks<S>(f: (S, seq<byte>) -> S, init: S, body: seq<byte>, tail: seq<byte>, b: BlockSize, lenBytes: nat)
    requires |body| % b == 0 && |tail| < b && (lenBytes == 8 || lenBytes == 16) && |tail| + 1 + lenBytes > b
    ensures Hash(f, init, body + tail, b, lenBytes)
         == f(f(Chain(f, b, init, body), tail + [0x80] + Zeros(b - 1 - |tail|)),
              Zeros(b - lenBytes) + BigEndian(8 * (|body| + |tail|), lenBytes))
  {
    hide Chain, BigEndian, Zeros, Padding;
    var m := body + tail;
    var one, two := tail + [0x80] + Zeros(b - 1 - |tail|), Zeros(b - lenBytes) + BigEndian(8 * |m|, lenBytes);
    PaddedTwice(body, tail, b, lenBytes);
    ChainConcat(f, b, init, body, one + two);
    var s := Chain(f, b, init, body);
    ChainConcat(f, b, s, one, two);
    ChainOne(f, b, s, one);
    ChainOne(f, b, f(s, one), two);
  }
}
