/**
 * The LSB-first bit reader of the DEFLATE decoder: at every moment it stands before a sequence of
 * unread bits, and no operation reorders, drops or invents one.
 */
module PngBits {
  import opened Bytes

  type Bit = x: int | 0 <= x < 2

  function Pow2(n: nat): (r: nat)
    ensures r >= 1
  {
    if n == 0 then 1 else 2 * Pow2(n - 1)
  }

  /** The low `n` bits of `v`, least significant first. */
  function ToBits(v: nat, n: nat): (r: seq<Bit>)
    ensures |r| == n
  {
    if n == 0 then [] else [v % 2] + ToBits(v / 2, n - 1)
  }

  /** The number whose bits these are, least significant first. */
  function Value(bits: seq<Bit>): (r: nat)
    ensures r < Pow2(|bits|)
  {
    if bits == [] then 0 else bits[0] + 2 * Value(bits[1..])
  }

  /** All the bits of a byte string, in stream order. */
  function StreamBits(data: seq<Byte>): (r: seq<Bit>)
    ensures |r| == 8 * |data|
  {
    if data == [] then [] else ToBits(data[0], 8) + StreamBits(data[1..])
  }

  lemma {:induction false} ToBitsValue(v: nat, n: nat)
    requires v < Pow2(n)
    ensures Value(ToBits(v, n)) == v
  {
    if n > 0 {
      ToBitsValue(v / 2, n - 1);
      assert ToBits(v, n)[1..] == ToBits(v / 2, n - 1);
    }
  }

  lemma {:induction false} ValueBits(bits: seq<Bit>)
    ensures ToBits(Value(bits), |bits|) == bits
  {
    if bits != [] {
      ValueBits(bits[1..]);
      assert Value(bits) % 2 == bits[0] && Value(bits) / 2 == Value(bits[1..]);
    }
  }

  // ---------- Shifts and masks, one bit at a time ----------

  function ShiftLeft(b: nat, n: nat): nat {
    if n == 0 then b else 2 * ShiftLeft(b, n - 1)
  }

  function ShiftRight(v: nat, n: nat): nat {
    if n == 0 then v else ShiftRight(v / 2, n - 1)
  }

  /** v & ((1 << n) - 1) */
  function LowBits(v: nat, n: nat): nat {
    if n == 0 then 0 else v % 2 + 2 * LowBits(v / 2, n - 1)
  }

  /** Bits loaded above those already buffered come after them. */
  lemma {:induction false} LoadAbove(v: nat, n: nat, b: nat, m: nat)
    requires v < Pow2(n)
    ensures ToBits(v + ShiftLeft(b, n), n + m) == ToBits(v, n) + ToBits(b, m)
    ensures b < Pow2(m) ==> v + ShiftLeft(b, n) < Pow2(n + m)
  {
    if n > 0 {
      var w := v + ShiftLeft(b, n);
      assert w % 2 == v % 2 && w / 2 == v / 2 + ShiftLeft(b, n - 1);
      LoadAbove(v / 2, n - 1, b, m);
    }
  }

  /** Masking takes the first bits, shifting leaves the others. */
  lemma {:induction false} TakeLow(v: nat, n: nat, m: nat)
    requires v < Pow2(n + m)
    ensures ToBits(v, n + m) == ToBits(LowBits(v, n), n) + ToBits(ShiftRight(v, n), m)
    ensures LowBits(v, n) < Pow2(n) && ShiftRight(v, n) < Pow2(m)
  {
    if n > 0 {
      TakeLow(v / 2, n - 1, m);
      var low := LowBits(v, n);
      assert low % 2 == v % 2 && low / 2 == LowBits(v / 2, n - 1);
    }
  }

  lemma SmallPowers()
    ensures Pow2(0) == 1 && Pow2(1) == 2 && Pow2(2) == 4 && Pow2(3) == 8 && Pow2(4) == 16 && Pow2(5) == 32
    ensures Pow2(6) == 64 && Pow2(7) == 128 && Pow2(8) == 256
  {
    assert Pow2(3) == 8;
    assert Pow2(6) == 64;
  }

  lemma LoadByteBits(v: nat, n: nat, data: seq<Byte>, pos: nat)
    requires v < Pow2(n) && pos < |data|
    ensures var w := v + ShiftLeft(data[pos], n);
            && w < Pow2(n + 8)
            && ToBits(v, n) + StreamBits(data[pos..]) == ToBits(w, n + 8) + StreamBits(data[pos + 1..])
  {
    LoadAbove(v, n, data[pos], 8);
    SmallPowers();
    assert data[pos..][1..] == data[pos + 1..];
    assert StreamBits(data[pos..]) == ToBits(data[pos], 8) + StreamBits(data[pos + 1..]);
    hide ToBits, StreamBits, ShiftLeft, Pow2;
    Associative(ToBits(v, n), ToBits(data[pos], 8), StreamBits(data[pos + 1..]));
  }

  lemma Associative(a: seq<Bit>, b: seq<Bit>, c: seq<Bit>)
    ensures a + (b + c) == (a + b) + c
  {
  }

  lemma TakeBits(v: nat, cnt: nat, n: nat, tail: seq<Bit>)
    requires v < Pow2(cnt) && n <= cnt
    ensures LowBits(v, n) < Pow2(n) && ShiftRight(v, n) < Pow2(cnt - n)
    ensures var all := ToBits(v, cnt) + tail;
            all[..n] == ToBits(LowBits(v, n), n) && all[n..] == ToBits(ShiftRight(v, n), cnt - n) + tail
  {
    TakeLow(v, n, cnt - n);
    hide ToBits, Pow2, LowBits, ShiftRight;
  }

  // ---------- The reader ----------

  class BitReader {
    const data: seq<Byte>
    var pos: nat
    var bitbuf: nat
    var bitcnt: nat

    ghost predicate Valid()
      reads this
    {
      pos <= |data| && bitcnt <= 32 && bitbuf < Pow2(bitcnt)
    }

    /** The bits still to be read: those buffered, then those of the bytes not loaded. */
    ghost function Unread(): seq<Bit>
      requires Valid()
      reads this
    {
      ToBits(bitbuf, bitcnt) + StreamBits(data[pos..])
    }

    constructor (data: seq<Byte>)
      ensures Valid() && Unread() == StreamBits(data)
    {
      this.data := data;
      pos, bitbuf, bitcnt := 0, 0, 0;
      new;
      assert data[0..] == data;
    }

    method LoadByte()
      requires Valid() && pos < |data| && bitcnt <= 24
      modifies this
      ensures Valid() && Unread() == old(Unread()) && pos == old(pos) + 1 && bitcnt == old(bitcnt) + 8
    {
      hide ToBits, StreamBits, Pow2, ShiftLeft;
      LoadByteBits(bitbuf, bitcnt, data, pos);
      bitbuf := bitbuf + ShiftLeft(data[pos], bitcnt);
      pos := pos + 1;
      bitcnt := bitcnt + 8;
    }

    /** Loads bytes until `need` bits are buffered; nothing is consumed. */
    method Ensure(need: nat) returns (ok: bool)
      requires Valid() && need <= 16
      modifies this
      ensures Valid() && Unread() == old(Unread())
      ensures ok ==> need <= bitcnt
      ensures !ok ==> |Unread()| < need
    {
      hide ToBits, StreamBits, Pow2;
      while bitcnt < need
        invariant Valid() && Unread() == old(Unread())
        decreases |data| - pos
      {
        if pos >= |data| {
          return false;
        }
        LoadByte();
      }
      ok := true;
    }

    /** The next `n` bits as a number; None at the end of the stream. */
    method GetBits(n: nat) returns (r: Option<nat>)
      requires Valid() && n <= 16
      modifies this
      ensures Valid()
      ensures r.None? ==> |old(Unread())| < n
      ensures r.Some? ==> n <= |old(Unread())| && ToBits(r.value, n) == old(Unread())[..n] && r.value < Pow2(n)
                          && Unread() == old(Unread())[n..]
    {
      if n == 0 {
        return Some(0);
      }
      hide ToBits, StreamBits, Pow2, ShiftRight, LowBits;
      var ok := Ensure(n);
      if !ok {
        return None;
      }
      TakeBits(bitbuf, bitcnt, n, StreamBits(data[pos..]));
      var v := LowBits(bitbuf, n);
      bitbuf := ShiftRight(bitbuf, n);
      bitcnt := bitcnt - n;
      r := Some(v);
    }

    /** Drops the bits up to the next byte boundary. */
    method AlignByte()
      requires Valid()
      modifies this
      ensures Valid() && Unread() == old(Unread())[|old(Unread())| % 8..]
    {
      var drop := bitcnt % 8;
      hide ToBits, StreamBits, Pow2, ShiftRight, LowBits;
      TakeBits(bitbuf, bitcnt, drop, StreamBits(data[pos..]));
      WholeBytes(bitcnt, |data| - pos);
      assert |Unread()| % 8 == drop;
      bitbuf := ShiftRight(bitbuf, drop);
      bitcnt := bitcnt - drop;
    }
  }

  lemma WholeBytes(n: nat, bytes: nat)
    ensures (n + 8 * bytes) % 8 == n % 8
  {
  }
}
