/**
 * Streaming SHA-256: the buffering around the block function, and the padding of section 5.1.1 of
 * FIPS 180-4. The block function itself is a parameter.
 */
module Sha256Stream {
  import opened Bytes

  const BLOCK := 64
  const TWO64: nat := 0x1_0000_0000_0000_0000

  /** The initial hash value and the block function. */
  datatype Algorithm<!H> = Algorithm(h0: H, compress: (H, seq<Byte>) -> H)

  /** The hash value after absorbing whole blocks, one after the other. */
  function Absorb<H>(alg: Algorithm<H>, h: H, msg: seq<Byte>): H
    requires |msg| % BLOCK == 0
    decreases |msg|
  {
    if msg == [] then h
    else Absorb(alg, alg.compress(h, msg[..BLOCK]), msg[BLOCK..])
  }

  lemma {:induction false} AbsorbMore<H>(alg: Algorithm<H>, h: H, msg: seq<Byte>, block: seq<Byte>)
    requires |msg| % BLOCK == 0 && |block| == BLOCK
    ensures Absorb(alg, h, msg + block) == alg.compress(Absorb(alg, h, msg), block)
    decreases |msg|
  {
    if msg == [] {
      assert msg + block == block;
      assert block[..BLOCK] == block && block[BLOCK..] == [];
    } else {
      assert (msg + block)[..BLOCK] == msg[..BLOCK];
      assert (msg + block)[BLOCK..] == msg[BLOCK..] + block;
      AbsorbMore(alg, alg.compress(h, msg[..BLOCK]), msg[BLOCK..], block);
    }
  }

  // ---------- Padding ----------

  function Zeros(n: nat): seq<Byte> {
    seq(n, _ => 0)
  }

  /** A number below 256^n as n bytes, the most significant first. */
  function BigEndian(x: nat, n: nat): (r: seq<Byte>)
    ensures |r| == n
  {
    if n == 0 then [] else BigEndian(x / 256, n - 1) + [x % 256]
  }

  function FromBigEndian(b: seq<Byte>): nat {
    if b == [] then 0 else FromBigEndian(b[..|b| - 1]) * 256 + b[|b| - 1]
  }

  function Pow256(n: nat): nat {
    if n == 0 then 1 else 256 * Pow256(n - 1)
  }

  lemma {:induction false} BigEndianValue(x: nat, n: nat)
    requires x < Pow256(n)
    ensures FromBigEndian(BigEndian(x, n)) == x
  {
    if n > 0 {
      BigEndianValue(x / 256, n - 1);
    }
  }

  /** The padding bytes after a message of `n` bytes: a one bit, zeros, the length in bits. */
  function Padding(n: nat): seq<Byte> {
    [0x80] + Zeros((55 - n) % BLOCK) + BigEndian(BitLength(n % TWO64), 8)
  }

  /** The byte count in bits, modulo 2^64. */
  function BitLength(total: nat): nat {
    total * 8 % TWO64
  }

  /** Message and padding fill whole blocks. */
  lemma PaddingFills(n: nat)
    ensures (n + |Padding(n)|) % BLOCK == 0
  {
    PaddingSize(n);
    hide Padding;
    var z := (55 - n) % BLOCK;
    assert n + z + 9 == BLOCK * (1 - (55 - n) / BLOCK);
  }

  lemma PaddingSize(n: nat)
    ensures |Padding(n)| == (55 - n) % BLOCK + 9
  {
  }

  /** The zeros are the fewest that leave room for exactly the length field. */
  lemma ZerosFewest(n: nat, k: nat)
    requires (n + 1 + k + 8) % BLOCK == 0
    ensures (55 - n) % BLOCK <= k
  {
    var q := (n + 1 + k + 8) / BLOCK;
    assert 55 - n == k + BLOCK * (1 - q);
    assert (55 - n) % BLOCK == k % BLOCK;
  }

  /** Below 2^64 bits the length field is the length of the message in bits. */
  lemma PaddingLength(n: nat)
    requires 8 * n < TWO64
    ensures FromBigEndian(Padding(n)[|Padding(n)| - 8..]) == 8 * n
  {
    assert n % TWO64 == n && n * 8 % TWO64 == 8 * n;
    assert Padding(n)[|Padding(n)| - 8..] == BigEndian(8 * n, 8);
    Pow256Eight();
    BigEndianValue(8 * n, 8);
  }

  lemma Pow256Eight()
    ensures Pow256(8) == TWO64
  {
    assert Pow256(4) == 0x1_0000_0000;
    assert Pow256(6) == 0x1_0000_0000_0000;
  }

  // ---------- The padding as bits ----------

  /** The low `n` bits of a number, the most significant first. */
  function BigBits(x: nat, n: nat): (r: seq<nat>)
    ensures |r| == n
  {
    if n == 0 then [] else BigBits(x / 2, n - 1) + [x % 2]
  }

  /** The bits of bytes, each byte's most significant bit first. */
  function BitsOf(b: seq<Byte>): (r: seq<nat>)
    ensures |r| == 8 * |b|
  {
    if b == [] then [] else BitsOf(b[..|b| - 1]) + BigBits(b[|b| - 1], 8)
  }

  function ZeroBits(n: nat): (r: seq<nat>) {
    seq(n, _ => 0)
  }

  lemma {:induction false} BitsJoin(a: seq<Byte>, b: seq<Byte>)
    ensures BitsOf(a + b) == BitsOf(a) + BitsOf(b)
    decreases b
  {
    if b == [] {
      assert a + b == a;
    } else {
      BitsJoin(a, b[..|b| - 1]);
      assert (a + b)[..|a + b| - 1] == a + b[..|b| - 1];
    }
  }

  function Halved(x: nat, n: nat): nat {
    if n == 0 then x else Halved(x / 2, n - 1)
  }

  function Doubled(x: nat, n: nat): nat {
    if n == 0 then x else 2 * Doubled(x, n - 1)
  }

  lemma {:induction false} BitsSplit(x: nat, m: nat, n: nat)
    ensures BigBits(x, m + n) == BigBits(Halved(x, n), m) + BigBits(x, n)
  {
    if n > 0 {
      BitsSplit(x / 2, m, n - 1);
    }
  }

  lemma {:induction false} HighBits(low: nat, high: nat, n: nat)
    ensures BigBits(low + Doubled(high, n), n) == BigBits(low, n)
  {
    if n > 0 {
      var x := low + Doubled(high, n);
      assert x % 2 == low % 2 && x / 2 == low / 2 + Doubled(high, n - 1);
      HighBits(low / 2, high, n - 1);
    }
  }

  lemma HalvedByte(x: nat)
    ensures Halved(x, 8) == x / 256
  {
    var a, b := x / 2 / 2, x / 2 / 2 / 2 / 2;
    assert Halved(x, 8) == Halved(a, 6) && Halved(a, 6) == Halved(b, 4) && Halved(b, 4) == Halved(b / 4, 2);
    assert Halved(b / 4 / 2, 1) == b / 4 / 2 / 2;
    assert b == x / 16 && Halved(b / 4, 2) == x / 256;
  }

  lemma DoubledByte(q: nat)
    ensures Doubled(q, 8) == 256 * q
  {
    assert Doubled(q, 1) == 2 * q;
    assert Doubled(q, 2) == 4 * q;
    assert Doubled(q, 4) == 16 * q;
    assert Doubled(q, 6) == 64 * q;
  }

  /** The last byte of a number is its last eight bits. */
  lemma LastByte(x: nat, m: nat)
    ensures BigBits(x, m + 8) == BigBits(x / 256, m) + BigBits(x % 256, 8)
  {
    hide BigBits, Halved, Doubled;
    BitsSplit(x, m, 8);
    HighBits(x % 256, x / 256, 8);
    HalvedByte(x);
    DoubledByte(x / 256);
  }

  lemma {:induction false} BigEndianBits(x: nat, n: nat)
    ensures BitsOf(BigEndian(x, n)) == BigBits(x, 8 * n)
  {
    if n > 0 {
      BigEndianBits(x / 256, n - 1);
      LastByte(x, 8 * (n - 1));
    }
  }

  lemma {:induction false} ZerosBits(n: nat)
    ensures BitsOf(Zeros(n)) == ZeroBits(8 * n)
  {
    if n > 0 {
      ZerosBits(n - 1);
      assert Zeros(n)[..n - 1] == Zeros(n - 1);
      assert BigBits(0, 8) == ZeroBits(8);
    }
  }

  /** The bits of any padding: the byte 0x80 is a one and seven zeros. */
  lemma PaddedBits(z: nat, len: nat)
    ensures BitsOf([0x80] + Zeros(z) + BigEndian(len, 8)) == [1] + ZeroBits(7 + 8 * z) + BigBits(len, 64)
  {
    hide BitsOf, BigBits, BigEndian, Zeros;
    BitsJoin([0x80] + Zeros(z), BigEndian(len, 8));
    BitsJoin([0x80], Zeros(z));
    ZerosBits(z);
    BigEndianBits(len, 8);
    FirstByte();
    assert [1, 0, 0, 0, 0, 0, 0, 0] + ZeroBits(8 * z) == [1] + ZeroBits(7 + 8 * z);
  }

  /** Section 5.1.1 of FIPS 180-4: a one, the fewest zeros that leave 64 bits in the last block, and the length of
      the message in bits, modulo 2^64. */
  lemma PaddingBits(n: nat) returns (zeros: nat)
    ensures BitsOf(Padding(n)) == [1] + ZeroBits(zeros) + BigBits(8 * n % TWO64, 64)
    ensures zeros < 512 && (8 * n + 1 + zeros + 64) % 512 == 0
  {
    var z := (55 - n) % BLOCK;
    zeros := 7 + 8 * z;
    PaddedBits(z, BitLength(n % TWO64));
    LengthInBits(n);
    WholeBlocks(n);
    hide BitsOf, BigBits, BigEndian, Zeros, BitLength;
  }

  lemma WholeBlocks(n: nat)
    ensures (8 * n + 1 + (7 + 8 * ((55 - n) % BLOCK)) + 64) % 512 == 0
  {
    PaddingFills(n);
    PaddingSize(n);
    hide Padding;
    var blocks := (n + |Padding(n)|) / BLOCK;
    assert 8 * n + 1 + (7 + 8 * ((55 - n) % BLOCK)) + 64 == 512 * blocks;
  }

  lemma LengthInBits(n: nat)
    ensures BitLength(n % TWO64) == 8 * n % TWO64
  {
    var q, r := n / TWO64, n % TWO64;
    assert 8 * n == TWO64 * (8 * q) + 8 * r;
  }

  lemma FirstByte()
    ensures BitsOf([0x80]) == [1, 0, 0, 0, 0, 0, 0, 0]
  {
    assert BigBits(1, 1) == [1];
    assert BigBits(2, 2) == [1, 0];
    assert BigBits(4, 3) == [1, 0, 0];
    assert BigBits(8, 4) == [1, 0, 0, 0];
    assert BigBits(16, 5) == [1, 0, 0, 0, 0];
    assert BigBits(32, 6) == [1, 0, 0, 0, 0, 0];
    assert BigBits(64, 7) == [1, 0, 0, 0, 0, 0, 0];
    assert BitsOf([0x80]) == [] + BigBits(0x80, 8);
  }

  // ---------- The streaming state ----------

  lemma SplitMore(all: seq<Byte>, n: nat, part: seq<Byte>)
    requires n <= |all|
    ensures (all + part)[..|all| - n] == all[..|all| - n]
    ensures (all + part)[|all| - n..] == all[|all| - n..] + part
  {
  }

  class Sha256<!H> {
    const alg: Algorithm<H>
    var h: H
    const buf: array<Byte>
    var bufLen: nat
    var total: nat
    /** Everything absorbed so far. */
    ghost var absorbed: seq<Byte>

    /** The hash value covers the whole blocks absorbed; the buffer holds the rest. */
    ghost predicate Buffered()
      reads this`h, this`bufLen, this`absorbed, buf
    {
      && buf.Length == BLOCK && bufLen < BLOCK
      && bufLen <= |absorbed| && (|absorbed| - bufLen) % BLOCK == 0
      && h == Absorb(alg, alg.h0, absorbed[..|absorbed| - bufLen])
      && buf[..bufLen] == absorbed[|absorbed| - bufLen..]
    }

    ghost predicate Valid()
      reads this, buf
    {
      Buffered() && total == |absorbed| % TWO64
    }

    constructor (alg: Algorithm<H>)
      ensures Valid() && absorbed == [] && this.alg == alg && fresh(buf)
    {
      this.alg := alg;
      h := alg.h0;
      buf := new Byte[BLOCK](_ => 0);
      bufLen, total := 0, 0;
      absorbed := [];
    }

    /** Compresses one whole block; nothing is buffered before or after. */
    method Block(block: seq<Byte>)
      requires Buffered() && bufLen == 0 && |block| == BLOCK
      modifies this`h, this`absorbed
      ensures Buffered() && absorbed == old(absorbed) + block
    {
      AbsorbMore(alg, alg.h0, absorbed, block);
      assert absorbed[..|absorbed|] == absorbed;
      h := alg.compress(h, block);
      absorbed := absorbed + block;
      assert absorbed[..|absorbed|] == absorbed;
    }

    /** Like Buffered, but the buffer may be full. */
    ghost predicate Loaded()
      reads this`h, this`bufLen, this`absorbed, buf
    {
      && buf.Length == BLOCK && bufLen <= BLOCK
      && bufLen <= |absorbed| && (|absorbed| - bufLen) % BLOCK == 0
      && h == Absorb(alg, alg.h0, absorbed[..|absorbed| - bufLen])
      && buf[..bufLen] == absorbed[|absorbed| - bufLen..]
    }

    method Load(part: seq<Byte>)
      requires Buffered() && bufLen + |part| <= BLOCK
      modifies this`bufLen, this`absorbed, buf
      ensures Loaded() && absorbed == old(absorbed) + part && bufLen == old(bufLen) + |part|
    {
      hide Absorb;
      ghost var head, tail := absorbed[..|absorbed| - bufLen], absorbed[|absorbed| - bufLen..];
      forall k | 0 <= k < |part| {
        buf[bufLen + k] := part[k];
      }
      assert buf[..bufLen] == tail;
      assert buf[..bufLen + |part|] == tail + part;
      SplitMore(absorbed, bufLen, part);
      bufLen := bufLen + |part|;
      absorbed := absorbed + part;
    }

    method Flush()
      requires Loaded() && bufLen == BLOCK
      modifies this`h, this`bufLen
      ensures Buffered() && bufLen == 0
    {
      hide Absorb;
      var block := buf[..];
      ghost var before := absorbed[..|absorbed| - BLOCK];
      assert absorbed == before + block by { assert buf[..] == buf[..BLOCK]; }
      AbsorbMore(alg, alg.h0, before, block);
      h := alg.compress(h, block);
      bufLen := 0;
      assert absorbed[..|absorbed|] == absorbed;
    }

    /** Tops the buffer up, and compresses it when it is full. */
    method FillBuffer(data: seq<Byte>) returns (rest: seq<Byte>)
      requires Buffered() && bufLen > 0
      modifies this`h, this`bufLen, this`absorbed, buf
      ensures Buffered() && |rest| <= |data| && rest == data[|data| - |rest|..]
      ensures absorbed == old(absorbed) + data[..|data| - |rest|]
      ensures rest != [] ==> bufLen == 0
    {
      hide Absorb;
      var need := BLOCK - bufLen;
      var take := Min(need, |data|);
      Load(data[..take]);
      rest := data[take..];
      if bufLen == BLOCK {
        Flush();
      }
    }

    /** Keeps the bytes after the last whole block. */
    method KeepTail(data: seq<Byte>)
      requires Buffered() && bufLen == 0 && |data| < BLOCK
      modifies this`bufLen, this`absorbed, buf
      ensures Buffered() && absorbed == old(absorbed) + data
    {
      hide Absorb;
      forall k | 0 <= k < |data| {
        buf[k] := data[k];
      }
      assert absorbed[..|absorbed|] == absorbed;
      bufLen := |data|;
      absorbed := absorbed + data;
      assert absorbed[..|absorbed| - bufLen] == old(absorbed);
      assert buf[..bufLen] == data;
    }

    method UpdateInternal(data0: seq<Byte>)
      requires Buffered()
      modifies this`h, this`bufLen, this`absorbed, buf
      ensures Buffered() && absorbed == old(absorbed) + data0
    {
      hide Absorb, Buffered;
      var data := data0;
      ghost var all := absorbed + data0;
      if bufLen > 0 {
        data := FillBuffer(data);
      }
      assert absorbed + data == all;
      while |data| >= BLOCK
        invariant Buffered() && absorbed + data == all && (data != [] ==> bufLen == 0)
      {
        var block := data[..BLOCK];
        assert data == block + data[BLOCK..];
        Block(block);
        data := data[BLOCK..];
      }
      if data != [] {
        KeepTail(data);
      }
    }

    method Update(data: seq<Byte>)
      requires Valid()
      modifies this`h, this`bufLen, this`absorbed, this`total, buf
      ensures Valid() && absorbed == old(absorbed) + data
    {
      hide Buffered;
      total := (total + |data|) % TWO64;
      UpdateInternal(data);
      TotalWraps(|old(absorbed)|, |data|);
    }

    /** Absorbs exactly the padding, which leaves an empty buffer. */
    method Finalize() returns (digest: H)
      requires Valid()
      modifies this`h, this`bufLen, this`absorbed, buf
      ensures Buffered() && bufLen == 0 && absorbed == old(absorbed) + Padding(|old(absorbed)|)
      ensures digest == Digest(alg, old(absorbed))
    {
      hide BitLength, Absorb, BigEndian;
      var bitLen := BitLength(total);
      var pad := [0x80] + Zeros(71);
      var padLen := if bufLen < 56 then 56 - bufLen else 120 - bufLen;
      ghost var n := |absorbed|;
      PadLength(n, bufLen);
      PadPrefix(padLen);
      hide Buffered, Zeros;
      UpdateInternal(pad[..padLen]);
      UpdateInternal(BigEndian(bitLen, 8));
      assert absorbed == old(absorbed) + Padding(n);
      PaddingFills(n);
      EmptyBuffer();
      digest := h;
    }

    lemma EmptyBuffer()
      requires Buffered() && |absorbed| % BLOCK == 0
      ensures bufLen == 0 && h == Absorb(alg, alg.h0, absorbed)
    {
      assert absorbed[..|absorbed|] == absorbed;
    }
  }

  lemma TotalWraps(n: nat, more: nat)
    ensures (n % TWO64 + more) % TWO64 == (n + more) % TWO64
  {
    assert n + more == n % TWO64 + more + TWO64 * (n / TWO64);
  }

  lemma PadPrefix(padLen: nat)
    requires 1 <= padLen <= 72
    ensures ([0x80] + Zeros(71))[..padLen] == [0x80] + Zeros(padLen - 1)
  {
  }

  /** The number of padding bytes before the length field, from what is buffered. */
  lemma PadLength(n: nat, bufLen: nat)
    requires bufLen < BLOCK && bufLen <= n && (n - bufLen) % BLOCK == 0
    ensures (55 - n) % BLOCK + 1 == if bufLen < 56 then 56 - bufLen else 120 - bufLen
  {
    var q := (n - bufLen) / BLOCK;
    assert 55 - n == 55 - bufLen - BLOCK * q;
    assert (55 - n) % BLOCK == (55 - bufLen) % BLOCK;
  }

  /** The hash of a message: its padded form, absorbed block by block. */
  function Digest<H>(alg: Algorithm<H>, msg: seq<Byte>): H {
    PaddingFills(|msg|);
    Absorb(alg, alg.h0, msg + Padding(|msg|))
  }

  function Concat(chunks: seq<seq<Byte>>): seq<Byte> {
    if chunks == [] then [] else Concat(chunks[..|chunks| - 1]) + chunks[|chunks| - 1]
  }

  /** However a message is cut into updates, its digest is the same. */
  method HashChunks<H>(alg: Algorithm<H>, chunks: seq<seq<Byte>>) returns (digest: H)
    ensures digest == Digest(alg, Concat(chunks))
  {
    hide Digest;
    var state := new Sha256(alg);
    for i := 0 to |chunks|
      invariant fresh(state) && fresh(state.buf) && state.Valid() && state.alg == alg
      invariant state.absorbed == Concat(chunks[..i])
    {
      state.Update(chunks[i]);
      assert chunks[..i + 1][..i] == chunks[..i];
    }
    assert chunks[..|chunks|] == chunks;
    digest := state.Finalize();
  }

  /** The state is a function of what was absorbed, whatever the calls were. */
  lemma StateIsDetermined<H>(a: Sha256<H>, b: Sha256<H>)
    requires a.Valid() && b.Valid() && a.alg == b.alg && a.absorbed == b.absorbed
    ensures a.h == b.h && a.bufLen == b.bufLen && a.total == b.total && a.buf[..a.bufLen] == b.buf[..b.bufLen]
  {
    var n := |a.absorbed|;
    assert n - a.bufLen == BLOCK * ((n - a.bufLen) / BLOCK) && n - b.bufLen == BLOCK * ((n - b.bufLen) / BLOCK);
  }
}
