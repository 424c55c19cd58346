/**
 * A byte-valued monotone function replaced by its table of thresholds. Floats in [0, 1] are stood
 * for by their bit patterns, whose order is theirs: 0 for 0.0 and `top` for 1.0.
 */
module Thresholds {
  import opened Bytes

  const LEVELS := 256

  /** The step sizes of the lookup. */
  predicate Halving(step: int) {
    || step == 128 || step == 64 || step == 32 || step == 16
    || step == 8 || step == 4 || step == 2 || step == 1 || step == 0
  }

  datatype Curve = Curve(top: nat, f: int -> int) {
    ghost predicate Valid() {
      && f(0) == 0 && f(top) == LEVELS - 1 && top > 0
      && (forall x, y :: 0 <= x <= y <= top ==> f(x) <= f(y))
    }

    function Clamp(x: int): int {
      if x < 0 then 0 else if x > top then top else x
    }

    /** The smallest argument where the function reaches `k`. */
    ghost predicate Reaches(k: int, x: int) {
      0 <= x <= top && f(x) >= k && forall y :: 0 <= y < x ==> f(y) < k
    }

    ghost predicate Table(t: seq<int>) {
      |t| == LEVELS && forall k :: 0 <= k < LEVELS ==> Reaches(k, t[k])
    }

    /** Comparing with the threshold is comparing with the level. */
    lemma ThresholdCompares(t: seq<int>, k: int, x: int)
      requires Valid() && Table(t) && 0 <= k < LEVELS && 0 <= x <= top
      ensures t[k] <= x <==> k <= f(x)
    {
      assert Reaches(k, t[k]);
    }

    method BuildTable() returns (t: array<int>)
      requires Valid()
      ensures fresh(t) && Table(t[..])
    {
      t := new int[LEVELS](_ => 0);
      for k := 1 to LEVELS
        invariant Reaches(0, t[0])
        invariant forall j :: 0 <= j < k ==> Reaches(j, t[j])
      {
        var lo, hi := 0, top;
        while hi - lo > 1
          invariant 0 <= lo < hi <= top && f(lo) < k <= f(hi)
        {
          var mid := lo + (hi - lo) / 2;
          if f(mid) < k {
            lo := mid;
          } else {
            hi := mid;
          }
        }
        assert forall y :: 0 <= y < hi ==> f(y) <= f(lo);
        t[k] := hi;
      }
    }

    /** Eight halving steps find the largest level whose threshold is not above the argument: the
        function's own value, everywhere. */
    method Lookup(t: array<int>, x0: int) returns (k: int)
      requires Valid() && Table(t[..])
      ensures k == if x0 < 0 then f(0) else if x0 > top then f(top) else f(x0)
    {
      var x := Clamp(x0);
      k := 0;
      var step := 128;
      ghost var goal := f(x);
      assert 0 <= goal < LEVELS by { assert f(0) <= f(x) <= f(top); }
      while step > 0
        invariant Halving(step) && 0 <= k && k + 2 * step <= LEVELS
        invariant k <= goal < k + Max(1, 2 * step)
        decreases step
      {
        var n := k + step;
        ThresholdCompares(t[..], n, x);
        assert n % LEVELS == n;
        if t[n % LEVELS] <= x {
          k := n;
        }
        step := step / 2;
      }
    }
  }
}
