/** Bytes, machine words as byte sequences, and the result type shared by the models. */
module Bytes {
  type Byte = x: int | 0 <= x < 256

  type U32 = x: int | 0 <= x <= U32_MAX

  const U32_MAX: int := 0xFFFF_FFFF

  datatype Option<+T> = None | Some(value: T)

  datatype Result<+T, +E> = Ok(value: T) | Err(error: E)

  function Min(a: int, b: int): int {
    if a <= b then a else b
  }

  function Max(a: int, b: int): int {
    if a >= b then a else b
  }

  /** Appends `len` bytes, each the byte `offset` places before it. */
  function CopyMatch(out: seq<Byte>, offset: nat, len: nat): (r: seq<Byte>)
    requires 1 <= offset <= |out|
    ensures |r| == |out| + len
    ensures r[..|out|] == out
    ensures forall k :: |out| <= k < |r| ==> r[k] == r[k - offset]
    decreases len
  {
    if len == 0 then out
    else CopyMatch(out + [out[|out| - offset]], offset, len - 1)
  }

  /** A sequence that extends `out` periodically is the match copy. */
  lemma {:induction false} CopyMatchUnique(out: seq<Byte>, offset: nat, len: nat, r: seq<Byte>)
    requires 1 <= offset <= |out|
    requires |r| == |out| + len && r[..|out|] == out
    requires forall k :: |out| <= k < |r| ==> r[k] == r[k - offset]
    ensures r == CopyMatch(out, offset, len)
    decreases len
  {
    if len > 0 {
      assert r[|out|] == r[|out| - offset] == out[|out| - offset];
      assert r[..|out| + 1] == out + [out[|out| - offset]];
      CopyMatchUnique(out + [out[|out| - offset]], offset, len - 1, r);
    }
  }
}
