/**
 * Jump-flood alpha bleed: transparent pixels take the colour of a nearby opaque one. The image is
 * a flat sequence of RGBA bytes; a seed is the index of an opaque pixel, or -1.
 */
module AlphaBleed {
  import opened Bytes

  const JUMP_OFFSETS: seq<nat> := [16, 8, 4, 2, 1]

  /** How many pixels there are. */
  function Area(w: nat, h: nat): nat {
    w * h
  }

  predicate Image(rgba: seq<Byte>, w: nat, h: nat) {
    |rgba| == 4 * Area(w, h)
  }

  function Solid(rgba: seq<Byte>): (r: seq<bool>)
    requires |rgba| % 4 == 0
    ensures |r| == |rgba| / 4 && forall i :: 0 <= i < |r| ==> r[i] == (rgba[4 * i + 3] > 0)
  {
    seq(|rgba| / 4, i requires 0 <= i < |rgba| / 4 => rgba[4 * i + 3] > 0)
  }

  // ---------- Places ----------

  function X(w: nat, i: nat): nat
    requires w > 0
  {
    i % w
  }

  function Y(w: nat, i: nat): nat
    requires w > 0
  {
    i / w
  }

  function Abs(a: int): nat {
    if a < 0 then -a else a
  }

  function L1(w: nat, i: nat, s: nat): nat
    requires w > 0
  {
    Abs(X(w, i) - X(w, s)) + Abs(Y(w, i) - Y(w, s))
  }

  lemma MulGrows(a: nat, b: nat, w: nat)
    requires a < b
    ensures a * w + w <= b * w
  {
    var d := b - a - 1;
    assert b * w == a * w + w + d * w;
  }

  lemma Place(w: nat, i: nat, x: nat, y: nat)
    requires x < w && i == y * w + x
    ensures X(w, i) == x && Y(w, i) == y
  {
    var q, r := i / w, i % w;
    assert i == q * w + r;
    if q < y {
      MulGrows(q, y, w);
    } else if q > y {
      MulGrows(y, q, w);
    }
  }

  lemma Row(w: nat, h: nat, i: nat)
    requires w > 0 && i < Area(w, h)
    ensures X(w, i) < w && Y(w, i) < h && i == Y(w, i) * w + X(w, i)
  {
    if Y(w, i) >= h {
      if Y(w, i) > h {
        MulGrows(h, Y(w, i), w);
      }
    }
  }

  /** A place in the image, from its coordinates. */
  lemma Inside(w: nat, h: nat, x: nat, y: nat)
    requires x < w && y < h
    ensures y * w + x < Area(w, h) && X(w, y * w + x) == x && Y(w, y * w + x) == y
  {
    Place(w, y * w + x, x, y);
    MulGrows(y, h, w);
  }

  lemma Shift(w: nat, x: nat, y: nat, k: nat)
    ensures (y + k) * w + x == y * w + x + k * w
    ensures y >= k ==> (y - k) * w + x == y * w + x - k * w
  {
  }

  /** The taps to the left and right stay in the row, `k` away. */
  lemma TapsAcross(w: nat, h: nat, i: nat, k: nat)
    requires w > 0 && i < Area(w, h)
    ensures X(w, i) >= k ==> 0 <= i - k < Area(w, h) && X(w, i - k) == X(w, i) - k && Y(w, i - k) == Y(w, i)
    ensures X(w, i) + k < w ==> i + k < Area(w, h) && X(w, i + k) == X(w, i) + k && Y(w, i + k) == Y(w, i)
  {
    Row(w, h, i);
    hide X, Y;
    var x, y := X(w, i), Y(w, i);
    if x >= k {
      Inside(w, h, x - k, y);
    }
    if x + k < w {
      Inside(w, h, x + k, y);
    }
  }

  /** The taps above and below stay in the column, `k` away. */
  lemma TapsDown(w: nat, h: nat, i: nat, k: nat)
    requires w > 0 && i < Area(w, h)
    ensures Y(w, i) >= k ==> 0 <= i - k * w < Area(w, h) && X(w, i - k * w) == X(w, i) && Y(w, i - k * w) == Y(w, i) - k
    ensures Y(w, i) + k < h ==> i + k * w < Area(w, h) && X(w, i + k * w) == X(w, i) && Y(w, i + k * w) == Y(w, i) + k
  {
    Row(w, h, i);
    hide X, Y;
    var x, y := X(w, i), Y(w, i);
    Shift(w, x, y, k);
    if y >= k {
      Inside(w, h, x, y - k);
    }
    if y + k < h {
      Inside(w, h, x, y + k);
    }
  }

  /** Tap 0 is to the left, 1 right, 2 above, 3 below; none when it would leave the image. */
  function Tap(w: nat, h: nat, i: nat, k: nat, d: nat): (r: Option<nat>)
    requires w > 0 && i < Area(w, h) && d < 4
    ensures r.Some? ==> r.value < Area(w, h)
  {
    if d == 0 then TapsAcross(w, h, i, k); if X(w, i) >= k then Some(i - k) else None
    else if d == 1 then TapsAcross(w, h, i, k); if X(w, i) + k < w then Some(i + k) else None
    else if d == 2 then TapsDown(w, h, i, k); if Y(w, i) >= k then Some(i - k * w) else None
    else TapsDown(w, h, i, k); if Y(w, i) + k < h then Some(i + k * w) else None
  }

  lemma TapDistance(w: nat, h: nat, i: nat, k: nat, d: nat, s: nat)
    requires w > 0 && i < Area(w, h) && d < 4 && Tap(w, h, i, k, d).Some?
    ensures L1(w, i, s) <= L1(w, Tap(w, h, i, k, d).value, s) + k
  {
    hide X, Y;
    TapAway(w, h, i, k, d);
    hide Tap;
  }

  /** A tap is exactly `k` away. */
  lemma TapAway(w: nat, h: nat, i: nat, k: nat, d: nat)
    requires w > 0 && i < Area(w, h) && d < 4 && Tap(w, h, i, k, d).Some?
    ensures L1(w, i, Tap(w, h, i, k, d).value) == k
  {
    hide X, Y, Area;
    if d < 2 {
      TapsAcross(w, h, i, k);
    } else {
      TapsDown(w, h, i, k);
    }
  }

  // ---------- The flood ----------

  /** The nearer of two seeds, the first when they are equally near. */
  function Better(w: nat, i: nat, best: int, s: int): int
    requires w > 0
  {
    if s >= 0 && (best < 0 || L1(w, i, s) < L1(w, i, best)) then s else best
  }

  /** The best of the pixel's own seed and those of its first `d` taps. */
  function Pick(w: nat, h: nat, cur: seq<int>, i: nat, k: nat, d: nat): int
    requires w > 0 && |cur| == Area(w, h) && i < Area(w, h) && d <= 4
  {
    if d == 0 then cur[i]
    else
      var best := Pick(w, h, cur, i, k, d - 1);
      var tap := Tap(w, h, i, k, d - 1);
      if tap.Some? then Better(w, i, best, cur[tap.value]) else best
  }

  function NewSeed(solid: seq<bool>, w: nat, h: nat, cur: seq<int>, i: nat, k: nat): int
    requires w > 0 && |cur| == |solid| == Area(w, h) && i < Area(w, h)
  {
    if solid[i] then cur[i] else Pick(w, h, cur, i, k, 4)
  }

  function Round(solid: seq<bool>, w: nat, h: nat, cur: seq<int>, k: nat): (r: seq<int>)
    requires w > 0 && |cur| == |solid| == Area(w, h)
    ensures |r| == Area(w, h) && forall i :: 0 <= i < Area(w, h) ==> r[i] == NewSeed(solid, w, h, cur, i, k)
  {
    seq(Area(w, h), i requires 0 <= i < Area(w, h) => NewSeed(solid, w, h, cur, i, k))
  }

  function FirstSeeds(solid: seq<bool>): (r: seq<int>)
    ensures |r| == |solid| && forall i :: 0 <= i < |r| ==> r[i] == if solid[i] then i else -1
  {
    seq(|solid|, i requires 0 <= i < |solid| => if solid[i] then i else -1)
  }

  /** The seeds after rounds at the given distances. */
  function Spread(solid: seq<bool>, w: nat, h: nat, ks: seq<nat>): (r: seq<int>)
    requires w > 0 && |solid| == Area(w, h)
    ensures |r| == Area(w, h)
  {
    if ks == [] then FirstSeeds(solid)
    else Round(solid, w, h, Spread(solid, w, h, ks[..|ks| - 1]), ks[|ks| - 1])
  }

  /** Every transparent pixel with a seed takes the colour of the seed; alpha is never touched. */
  function Bled(rgba: seq<Byte>, w: nat, h: nat): (r: seq<Byte>)
    requires Image(rgba, w, h)
    ensures |r| == |rgba|
  {
    if rgba == [] then []
    else
      var solid := Solid(rgba);
      var seeds := Spread(solid, w, h, JUMP_OFFSETS);
      BledWith(rgba, solid, seeds)
  }

  function BledWith(rgba: seq<Byte>, solid: seq<bool>, seeds: seq<int>): (r: seq<Byte>)
    requires |rgba| == 4 * |solid| && |seeds| == |solid|
    ensures |r| == |rgba| && forall j :: 0 <= j < |r| ==> r[j] == BledByte(rgba, solid, seeds, j)
  {
    seq(|rgba|, j requires 0 <= j < |rgba| => BledByte(rgba, solid, seeds, j))
  }

  function BledByte(rgba: seq<Byte>, solid: seq<bool>, seeds: seq<int>, j: nat): Byte
    requires j < |rgba| && |rgba| == 4 * |solid| && |seeds| == |solid|
  {
    var s := seeds[j / 4];
    if j % 4 < 3 && !solid[j / 4] && 0 <= s < |solid| then rgba[4 * s + j % 4] else rgba[j]
  }

  // ---------- What the flood reaches ----------

  function Sum(ks: seq<nat>): nat {
    if ks == [] then 0 else Sum(ks[..|ks| - 1]) + ks[|ks| - 1]
  }

  /** The two places are `k` columns apart in one row, or `k` rows apart in one column. */
  predicate StepApart(w: nat, i: nat, j: nat, k: nat)
    requires w > 0
  {
    || (Y(w, i) == Y(w, j) && Abs(X(w, i) - X(w, j)) == k)
    || (X(w, i) == X(w, j) && Abs(Y(w, i) - Y(w, j)) == k)
  }

  /** The taps are exactly the places of the image a step of `k` away. */
  lemma TapsAre(w: nat, h: nat, i: nat, k: nat, j: nat)
    requires w > 0 && i < Area(w, h) && j < Area(w, h)
    ensures StepApart(w, i, j, k) <==> exists d :: 0 <= d < 4 && Tap(w, h, i, k, d) == Some(j)
  {
    Row(w, h, i);
    Row(w, h, j);
    TapsAcross(w, h, i, k);
    TapsDown(w, h, i, k);
    Shift(w, X(w, i), Y(w, i), k);
    hide X, Y, Area;
    if StepApart(w, i, j, k) {
      if Y(w, i) == Y(w, j) && Abs(X(w, i) - X(w, j)) == k {
        assert Tap(w, h, i, k, 0) == Some(j) || Tap(w, h, i, k, 1) == Some(j);
      } else {
        Shift(w, X(w, i), Y(w, j), k);
        assert Tap(w, h, i, k, 2) == Some(j) || Tap(w, h, i, k, 3) == Some(j);
      }
    }
  }

  /** Pixel `i` is opaque, or some opaque pixel reaches it by at most one axis step of each length in
      order, never leaving the image. */
  ghost predicate Reached(solid: seq<bool>, w: nat, h: nat, ks: seq<nat>, i: nat)
    requires w > 0 && |solid| == Area(w, h) && i < Area(w, h)
    decreases |ks|
  {
    if ks == [] then solid[i]
    else
      var front, k := ks[..|ks| - 1], ks[|ks| - 1];
      || Reached(solid, w, h, front, i)
      || exists j :: 0 <= j < Area(w, h) && StepApart(w, i, j, k) && Reached(solid, w, h, front, j)
  }

  /** A seed is an opaque pixel within the distance. */
  ghost predicate SeedOk(solid: seq<bool>, w: nat, i: nat, s: int, bound: nat)
    requires w > 0
  {
    s == -1 || (0 <= s < |solid| && solid[s] && L1(w, i, s) <= bound)
  }

  lemma {:induction false} PickOk(solid: seq<bool>, w: nat, h: nat, cur: seq<int>, i: nat, k: nat, d: nat, bound: nat)
    requires w > 0 && |cur| == |solid| == Area(w, h) && i < Area(w, h) && d <= 4
    requires forall j :: 0 <= j < Area(w, h) ==> SeedOk(solid, w, j, cur[j], bound)
    ensures SeedOk(solid, w, i, Pick(w, h, cur, i, k, d), bound + k)
    ensures Pick(w, h, cur, i, k, d) >= 0 <==>
              cur[i] >= 0 || exists e :: 0 <= e < d && Tap(w, h, i, k, e).Some? && cur[Tap(w, h, i, k, e).value] >= 0
  {
    hide L1, Tap;
    if d > 0 {
      PickOk(solid, w, h, cur, i, k, d - 1, bound);
      var tap := Tap(w, h, i, k, d - 1);
      if tap.Some? && cur[tap.value] >= 0 {
        TapDistance(w, h, i, k, d - 1, cur[tap.value]);
        assert SeedOk(solid, w, tap.value, cur[tap.value], bound);
      }
    }
  }

  /** After any rounds: opaque pixels keep themselves, every seed is an opaque pixel no further away
      than the distances add up to, and a pixel has a seed exactly when it is reached. */
  lemma {:induction false} SpreadOk(solid: seq<bool>, w: nat, h: nat, ks: seq<nat>, i: nat)
    requires w > 0 && |solid| == Area(w, h) && i < Area(w, h)
    ensures var s := Spread(solid, w, h, ks)[i];
            && SeedOk(solid, w, i, s, Sum(ks)) && (solid[i] ==> s == i)
            && (s >= 0 <==> Reached(solid, w, h, ks, i))
    decreases |ks|
  {
    hide Tap;
    if ks == [] {
      return;
    }
    var front, k := ks[..|ks| - 1], ks[|ks| - 1];
    var cur := Spread(solid, w, h, front);
    forall j | 0 <= j < Area(w, h)
      ensures SeedOk(solid, w, j, cur[j], Sum(front)) && (solid[j] ==> cur[j] == j)
      ensures cur[j] >= 0 <==> Reached(solid, w, h, front, j)
    {
      SpreadOk(solid, w, h, front, j);
    }
    PickOk(solid, w, h, cur, i, k, 4, Sum(front));
    forall j | 0 <= j < Area(w, h)
      ensures StepApart(w, i, j, k) <==> exists d :: 0 <= d < 4 && Tap(w, h, i, k, d) == Some(j)
    {
      TapsAre(w, h, i, k, j);
    }
    hide Pick, L1, StepApart, Area;
  }

  /** An image without both kinds of pixel bleeds to itself. */
  lemma NothingToBleed(rgba: seq<Byte>, w: nat, h: nat)
    requires Image(rgba, w, h)
    requires var solid := Solid(rgba);
             (forall i :: 0 <= i < |solid| ==> solid[i]) || (forall i :: 0 <= i < |solid| ==> !solid[i])
    ensures Bled(rgba, w, h) == rgba
  {
    if rgba != [] {
      var solid := Solid(rgba);
      var seeds := Spread(solid, w, h, JUMP_OFFSETS);
      forall j | 0 <= j < |rgba|
        ensures BledByte(rgba, solid, seeds, j) == rgba[j]
      {
        SpreadOk(solid, w, h, JUMP_OFFSETS, j / 4);
      }
    }
  }

  lemma Channel(i: nat, c: nat)
    requires c < 4
    ensures (4 * i + c) / 4 == i && (4 * i + c) % 4 == c
  {
  }

  /** One byte of the result, by pixel and channel. */
  lemma BledChannel(rgba: seq<Byte>, solid: seq<bool>, seeds: seq<int>, i: nat, c: nat)
    requires |rgba| == 4 * |solid| && |seeds| == |solid| && i < |solid| && c < 4
    ensures BledWith(rgba, solid, seeds)[4 * i + c] ==
            if c < 3 && !solid[i] && 0 <= seeds[i] < |solid| then rgba[4 * seeds[i] + c] else rgba[4 * i + c]
  {
    Channel(i, c);
    hide BledWith;
  }

  /** Alpha and opaque pixels never change; a transparent pixel takes the colour of an opaque pixel at
      distance at most 31 when one reaches it, and keeps its own otherwise. */
  lemma BledPixel(rgba: seq<Byte>, w: nat, h: nat, i: nat) returns (s: nat)
    requires Image(rgba, w, h) && w > 0 && i < Area(w, h)
    ensures var r, solid := Bled(rgba, w, h), Solid(rgba);
            && s < Area(w, h)
            && (if !solid[i] && Reached(solid, w, h, JUMP_OFFSETS, i) then solid[s] && L1(w, i, s) <= 31 else s == i)
            && r[4 * i + 3] == rgba[4 * i + 3]
            && r[4 * i] == rgba[4 * s] && r[4 * i + 1] == rgba[4 * s + 1] && r[4 * i + 2] == rgba[4 * s + 2]
  {
    hide Area, Spread, Reached, Sum, L1, Solid, BledWith, BledByte;
    var solid := Solid(rgba);
    SpreadOk(solid, w, h, JUMP_OFFSETS, i);
    SumOfOffsets();
    var seeds := Spread(solid, w, h, JUMP_OFFSETS);
    s := if !solid[i] && seeds[i] >= 0 then seeds[i] else i;
    BledChannel(rgba, solid, seeds, i, 0);
    BledChannel(rgba, solid, seeds, i, 1);
    BledChannel(rgba, solid, seeds, i, 2);
    BledChannel(rgba, solid, seeds, i, 3);
  }

  /** Of its own seed and those of its taps a pixel takes one of the nearest. */
  lemma {:induction false} PickNearest(w: nat, h: nat, cur: seq<int>, i: nat, k: nat, d: nat)
    requires w > 0 && |cur| == Area(w, h) && i < Area(w, h) && d <= 4
    ensures var p := Pick(w, h, cur, i, k, d);
            && (cur[i] >= 0 ==> 0 <= p && L1(w, i, p) <= L1(w, i, cur[i]))
            && forall e :: 0 <= e < d && Tap(w, h, i, k, e).Some? && cur[Tap(w, h, i, k, e).value] >= 0 ==>
                 0 <= p && L1(w, i, p) <= L1(w, i, cur[Tap(w, h, i, k, e).value])
  {
    hide L1, Tap;
    if d > 0 {
      PickNearest(w, h, cur, i, k, d - 1);
    }
  }

  /** After a round every transparent pixel's seed is at most as far as that of any place a step away. */
  lemma RoundNearest(solid: seq<bool>, w: nat, h: nat, cur: seq<int>, i: nat, k: nat, j: nat)
    requires w > 0 && |cur| == |solid| == Area(w, h) && i < Area(w, h) && j < Area(w, h)
    requires !solid[i] && StepApart(w, i, j, k) && cur[j] >= 0
    ensures var s := Round(solid, w, h, cur, k)[i]; 0 <= s && L1(w, i, s) <= L1(w, i, cur[j])
  {
    TapsAre(w, h, i, k, j);
    PickNearest(w, h, cur, i, k, 4);
    hide L1, Tap, Pick, StepApart, Area;
  }

  /** A transparent pixel directly beside, above or below an opaque one takes the colour of an opaque pixel
      at distance 1. */
  lemma BledBeside(rgba: seq<Byte>, w: nat, h: nat, i: nat, j: nat) returns (s: nat)
    requires Image(rgba, w, h) && w > 0 && i < Area(w, h) && j < Area(w, h)
    requires rgba[4 * i + 3] == 0 && rgba[4 * j + 3] > 0 && StepApart(w, i, j, 1)
    ensures s < Area(w, h) && rgba[4 * s + 3] > 0 && L1(w, i, s) == 1
    ensures var r := Bled(rgba, w, h);
            r[4 * i] == rgba[4 * s] && r[4 * i + 1] == rgba[4 * s + 1] && r[4 * i + 2] == rgba[4 * s + 2]
            && r[4 * i + 3] == 0
  {
    hide Area, Spread, Reached, Sum, X, Y, BledWith, BledByte, Round;
    var solid := Solid(rgba);
    var front := JUMP_OFFSETS[..4];
    var cur, seeds := Spread(solid, w, h, front), Spread(solid, w, h, JUMP_OFFSETS);
    LastRound(solid, w, h);
    SpreadOk(solid, w, h, front, j);
    RoundNearest(solid, w, h, cur, i, 1, j);
    SpreadOk(solid, w, h, JUMP_OFFSETS, i);
    s := seeds[i];
    if L1(w, i, s) == 0 {
      OtherPlace(w, h, i, s);
    }
    BledChannel(rgba, solid, seeds, i, 0);
    BledChannel(rgba, solid, seeds, i, 1);
    BledChannel(rgba, solid, seeds, i, 2);
    BledChannel(rgba, solid, seeds, i, 3);
  }

  /** Distances and steps are those of the coordinates. */
  lemma DistanceIs(w: nat, h: nat, x: nat, y: nat, x': nat, y': nat, k: nat)
    requires x < w && y < h && x' < w && y' < h
    ensures L1(w, y * w + x, y' * w + x') == Abs(x - x') + Abs(y - y')
    ensures StepApart(w, y * w + x, y' * w + x', k) <==>
              (y == y' && Abs(x - x') == k) || (x == x' && Abs(y - y') == k)
  {
    Inside(w, h, x, y);
    Inside(w, h, x', y');
    hide X, Y;
  }

  function PixelOf(rgba: seq<Byte>, w: nat, h: nat, x: nat, y: nat): (r: seq<Byte>)
    requires Image(rgba, w, h) && x < w && y < h
    ensures |r| == 4
  {
    Inside(w, h, x, y);
    rgba[4 * (y * w + x)..4 * (y * w + x) + 4]
  }

  /** What the bleed makes of the pixel at (x, y): its alpha stays; its colour becomes that of an opaque pixel
      within 31 steps when it is transparent and reached, and stays otherwise. */
  lemma BledAt(rgba: seq<Byte>, w: nat, h: nat, x: nat, y: nat) returns (sx: nat, sy: nat)
    requires Image(rgba, w, h) && x < w && y < h
    ensures sx < w && sy < h
    ensures y * w + x < Area(w, h)
    ensures if PixelOf(rgba, w, h, x, y)[3] == 0 && Reached(Solid(rgba), w, h, JUMP_OFFSETS, y * w + x)
            then PixelOf(rgba, w, h, sx, sy)[3] > 0 && Abs(x - sx) + Abs(y - sy) <= 31
            else sx == x && sy == y
    ensures PixelOf(Bled(rgba, w, h), w, h, x, y)
            == PixelOf(rgba, w, h, sx, sy)[..3] + PixelOf(rgba, w, h, x, y)[3..]
  {
    hide Bled, X, Y, L1, StepApart, Reached;
    Inside(w, h, x, y);
    var s := BledPixel(rgba, w, h, y * w + x);
    Row(w, h, s);
    sx, sy := X(w, s), Y(w, s);
    DistanceIs(w, h, x, y, sx, sy, 1);
  }

  /** A transparent pixel with an opaque one directly to its left, right, above or below takes the colour of
      such a pixel. */
  lemma BledFromBeside(rgba: seq<Byte>, w: nat, h: nat, x: nat, y: nat, x': nat, y': nat) returns (sx: nat, sy: nat)
    requires Image(rgba, w, h) && x < w && y < h && x' < w && y' < h && Abs(x - x') + Abs(y - y') == 1
    requires PixelOf(rgba, w, h, x, y)[3] == 0 && PixelOf(rgba, w, h, x', y')[3] > 0
    ensures sx < w && sy < h && Abs(x - sx) + Abs(y - sy) == 1 && PixelOf(rgba, w, h, sx, sy)[3] > 0
    ensures PixelOf(Bled(rgba, w, h), w, h, x, y) == PixelOf(rgba, w, h, sx, sy)[..3] + [0]
  {
    hide Bled, X, Y, L1, StepApart, Area, PixelOf;
    var i, j := y * w + x, y' * w + x';
    PixelBytes(rgba, w, h, x, y, i);
    PixelBytes(rgba, w, h, x', y', j);
    DistanceIs(w, h, x, y, x', y', 1);
    var s := BledBeside(rgba, w, h, i, j);
    Row(w, h, s);
    sx, sy := X(w, s), Y(w, s);
    DistanceIs(w, h, x, y, sx, sy, 1);
    PixelBytes(rgba, w, h, sx, sy, s);
    PixelBytes(Bled(rgba, w, h), w, h, x, y, i);
  }

  lemma PixelBytes(rgba: seq<Byte>, w: nat, h: nat, x: nat, y: nat, i: nat)
    requires Image(rgba, w, h) && x < w && y < h && i == y * w + x
    ensures i < Area(w, h) && |rgba| == 4 * Area(w, h)
    ensures PixelOf(rgba, w, h, x, y) == [rgba[4 * i], rgba[4 * i + 1], rgba[4 * i + 2], rgba[4 * i + 3]]
  {
    Inside(w, h, x, y);
    hide Area;
  }

  lemma LastRound(solid: seq<bool>, w: nat, h: nat)
    requires w > 0 && |solid| == Area(w, h)
    ensures Spread(solid, w, h, JUMP_OFFSETS) == Round(solid, w, h, Spread(solid, w, h, JUMP_OFFSETS[..4]), 1)
  {
  }

  lemma OtherPlace(w: nat, h: nat, i: nat, s: nat)
    requires w > 0 && i < Area(w, h) && s < Area(w, h) && L1(w, i, s) == 0
    ensures i == s
  {
    Row(w, h, i);
    Row(w, h, s);
    hide X, Y;
  }

  lemma SumOfOffsets()
    ensures Sum(JUMP_OFFSETS) == 31
  {
    assert [16, 8, 4, 2, 1][..4] == [16, 8, 4, 2];
    assert [16, 8, 4, 2][..3] == [16, 8, 4];
    assert [16, 8, 4][..2] == [16, 8];
    assert [16, 8][..1] == [16];
    assert Sum([16]) == 16;
    assert Sum([16, 8]) == 24;
    assert Sum([16, 8, 4]) == 28;
    assert Sum([16, 8, 4, 2]) == 30;
  }

  // ---------- Packed seeds ----------

  /** A value as a signed 32-bit number. */
  function I32(v: nat): int
    requires v < 0x1_0000_0000
  {
    if v < 0x8000_0000 then v else v - 0x1_0000_0000
  }

  /** A seed's row and column in one 32-bit number; the sentinel -1 stays itself. */
  function Pack(w: nat, s: int): int
    requires w > 0 && (s >= 0 ==> X(w, s) < 0xFFFF && Y(w, s) < 0xFFFF)
  {
    if s < 0 then -1 else I32(Y(w, s) * 0x1_0000 + X(w, s))
  }

  function UnpackX(s: int): nat {
    s % 0x1_0000
  }

  function UnpackY(s: int): nat {
    s % 0x1_0000_0000 / 0x1_0000
  }

  lemma PackUnpack(w: nat, s: nat)
    requires w > 0 && X(w, s) < 0xFFFF && Y(w, s) < 0xFFFF
    ensures Pack(w, s) != -1 && UnpackX(Pack(w, s)) == X(w, s) && UnpackY(Pack(w, s)) == Y(w, s)
    ensures -0x8000_0000 <= Pack(w, s) < 0x8000_0000
  {
    var x, y := X(w, s), Y(w, s);
    hide X, Y;
    var v := y * 0x1_0000 + x;
    assert I32(v) % 0x1_0000_0000 == v;
    assert I32(v) % 0x1_0000 == x;
  }

  // ---------- The implementation over packed seeds ----------

  /** Coordinates small enough to pack. */
  predicate Packable(w: nat, h: nat) {
    0 < w <= 0xFFFF && h <= 0xFFFF
  }

  lemma SeedPacks(w: nat, h: nat, s: int)
    requires Packable(w, h) && s < Area(w, h)
    ensures s >= 0 ==> X(w, s) < 0xFFFF && Y(w, s) < 0xFFFF
    ensures (Pack(w, s) == -1 <==> s < 0)
  {
    if s >= 0 {
      Row(w, h, s);
      PackUnpack(w, s);
    }
  }

  ghost predicate Seeds(w: nat, h: nat, seeds: seq<int>) {
    |seeds| == Area(w, h) && forall i :: 0 <= i < |seeds| ==> -1 <= seeds[i] < Area(w, h)
  }

  /** Seed `s` of place `i`, packed. */
  ghost predicate Packs(w: nat, h: nat, p: int, s: int) {
    Packable(w, h) && -1 <= s < Area(w, h) &&
    (SeedPacks(w, h, s); p == Pack(w, s))
  }

  /** The first places of `a` hold the packed seeds. */
  ghost predicate PackedUpTo(a: array<int>, w: nat, h: nat, seeds: seq<int>, n: nat)
    reads a
  {
    a.Length == |seeds| && n <= |seeds| && forall i :: 0 <= i < n ==> Packs(w, h, a[i], seeds[i])
  }

  function L1Packed(x: nat, y: nat, s: int): nat {
    Abs(x - UnpackX(s)) + Abs(y - UnpackY(s))
  }

  lemma PackedDistance(w: nat, h: nat, i: nat, p: int, s: nat)
    requires Packs(w, h, p, s)
    ensures p != -1 && L1Packed(X(w, i), Y(w, i), p) == L1(w, i, s)
  {
    SeedPacks(w, h, s);
    PackUnpack(w, s);
  }

  lemma PackedNone(w: nat, h: nat, p: int, s: int)
    requires Packs(w, h, p, s)
    ensures p == -1 <==> s == -1
  {
    SeedPacks(w, h, s);
  }

  /** The best seed of one transparent pixel, compared through packed coordinates. */
  method PickPacked(cur: array<int>, w: nat, h: nat, i: nat, x: nat, y: nat, k: nat, ghost seeds: seq<int>)
    returns (best: int)
    requires Packable(w, h) && i < Area(w, h) && x == X(w, i) && y == Y(w, i)
    requires Seeds(w, h, seeds) && PackedUpTo(cur, w, h, seeds, |seeds|)
    ensures Packs(w, h, best, Pick(w, h, seeds, i, k, 4))
  {
    hide Area, X, Y, Pack, L1, L1Packed, Tap;
    best := cur[i];
    var bestd: Option<nat> := None;
    PackedNone(w, h, best, seeds[i]);
    if best != -1 {
      bestd := Some(L1Packed(x, y, best));
      PackedDistance(w, h, i, best, seeds[i]);
    }
    for d := 0 to 4
      invariant Packs(w, h, best, Pick(w, h, seeds, i, k, d))
      invariant bestd == if Pick(w, h, seeds, i, k, d) < 0 then None else Some(L1(w, i, Pick(w, h, seeds, i, k, d)))
    {
      var tap := Tap(w, h, i, k, d);
      if tap.Some? {
        var s := cur[tap.value];
        PackedNone(w, h, s, seeds[tap.value]);
        if s != -1 {
          PackedDistance(w, h, i, s, seeds[tap.value]);
          var dist := L1Packed(x, y, s);
          if bestd.None? || dist < bestd.value {
            bestd := Some(dist);
            best := s;
          }
        }
      }
    }
  }

  lemma {:induction false} SpreadSeeds(solid: seq<bool>, w: nat, h: nat, ks: seq<nat>)
    requires w > 0 && |solid| == Area(w, h)
    ensures Seeds(w, h, Spread(solid, w, h, ks))
  {
    hide Area, Spread, Reached, L1;
    forall i | 0 <= i < |solid|
      ensures -1 <= Spread(solid, w, h, ks)[i] < |solid|
    {
      SpreadOk(solid, w, h, ks, i);
    }
  }

  lemma NextRow(w: nat, y: nat)
    ensures y * w + w == (y + 1) * w
  {
  }

  /** The array holds the image's bytes. */
  ghost predicate Shows(rgba: array<Byte>, img: seq<Byte>, w: nat, h: nat)
    reads rgba
  {
    rgba[..] == img && Image(img, w, h)
  }

  /** One round of the flood, from `cur` into `next`. */
  method FillRound(rgba: array<Byte>, cur: array<int>, next: array<int>, w: nat, h: nat, k: nat,
      ghost img: seq<Byte>, ghost seeds: seq<int>)
    requires Packable(w, h) && Shows(rgba, img, w, h) && cur != next && next.Length == Area(w, h)
    requires Seeds(w, h, seeds) && PackedUpTo(cur, w, h, seeds, |seeds|)
    modifies next
    ensures PackedUpTo(next, w, h, Round(Solid(img), w, h, seeds, k), Area(w, h))
  {
    hide Area, X, Y, Pack, Pick, Packs, Solid;
    ghost var solid := Solid(img);
    ghost var after := Round(solid, w, h, seeds, k);
    var y := 0;
    RowsEnd(w, h);
    while y < h
      invariant 0 <= y <= h && y * w <= Area(w, h) && PackedUpTo(next, w, h, after, y * w)
    {
      for x := 0 to w
        invariant y * w + x <= Area(w, h) && PackedUpTo(next, w, h, after, y * w + x)
      {
        Inside(w, h, x, y);
        var idx := y * w + x;
        var best := cur[idx];
        if rgba[idx * 4 + 3] == 0 {
          best := PickPacked(cur, w, h, idx, x, y, k, seeds);
        }
        next[idx] := best;
      }
      NextRow(w, y);
      y := y + 1;
    }
  }

  lemma RowsEnd(w: nat, h: nat)
    ensures h * w == Area(w, h) && 0 * w == 0
  {
  }

  /** Every opaque pixel starts as its own seed. */
  method FillFirst(rgba: array<Byte>, cur: array<int>, w: nat, h: nat, ghost img: seq<Byte>)
    requires Packable(w, h) && Shows(rgba, img, w, h) && cur.Length == Area(w, h)
    requires forall i :: 0 <= i < cur.Length ==> cur[i] == -1
    modifies cur
    ensures PackedUpTo(cur, w, h, FirstSeeds(Solid(img)), Area(w, h))
  {
    hide Area, X, Y, Solid, PackedUpTo;
    ghost var first := FirstSeeds(Solid(img));
    NothingPacked(cur, w, h, first);
    var y := 0;
    RowsEnd(w, h);
    while y < h
      invariant 0 <= y <= h && y * w <= Area(w, h) && PackedUpTo(cur, w, h, first, y * w)
      invariant Unset(cur, y * w)
    {
      FillFirstRow(rgba, cur, w, h, y, y * w, img);
      NextRow(w, y);
      y := y + 1;
    }
  }

  lemma NothingPacked(cur: array<int>, w: nat, h: nat, seeds: seq<int>)
    requires cur.Length == |seeds|
    ensures PackedUpTo(cur, w, h, seeds, 0)
  {
  }

  /** No seed yet from pixel `n` on. */
  ghost predicate Unset(cur: array<int>, n: nat)
    reads cur
  {
    forall i :: n <= i < cur.Length ==> cur[i] == -1
  }

  method FillFirstRow(rgba: array<Byte>, cur: array<int>, w: nat, h: nat, y: nat, row: nat, ghost img: seq<Byte>)
    requires Packable(w, h) && Shows(rgba, img, w, h) && cur.Length == Area(w, h) && y < h && row == y * w
    requires row <= Area(w, h) && PackedUpTo(cur, w, h, FirstSeeds(Solid(img)), row) && Unset(cur, row)
    modifies cur
    ensures row + w <= Area(w, h) && PackedUpTo(cur, w, h, FirstSeeds(Solid(img)), row + w) && Unset(cur, row + w)
  {
    hide Area, X, Y, Solid;
    for x := 0 to w
      invariant row + x <= Area(w, h) && PackedUpTo(cur, w, h, FirstSeeds(Solid(img)), row + x) && Unset(cur, row + x)
    {
      Inside(w, h, x, y);
      var idx := row + x;
      if rgba[idx * 4 + 3] > 0 {
        cur[idx] := I32(y * 0x1_0000 + x);
      }
    }
  }

  lemma UnpackIndex(w: nat, h: nat, p: int, s: nat)
    requires Packs(w, h, p, s)
    ensures UnpackY(p) * w + UnpackX(p) == s
  {
    SeedPacks(w, h, s);
    PackUnpack(w, s);
    Row(w, h, s);
  }

  /** Copies the colour of the pixel at byte `sidx` of the snapshot. */
  method CopyColour(rgba: array<Byte>, snap: seq<Byte>, i: nat, sidx: nat)
    requires 4 * i + 4 <= rgba.Length && sidx + 2 < |snap|
    modifies rgba
    ensures forall j :: 0 <= j < rgba.Length && (j < 4 * i || 4 * i + 3 <= j) ==> rgba[j] == old(rgba[j])
    ensures rgba[4 * i] == snap[sidx] && rgba[4 * i + 1] == snap[sidx + 1] && rgba[4 * i + 2] == snap[sidx + 2]
  {
    rgba[4 * i] := snap[sidx];
    rgba[4 * i + 1] := snap[sidx + 1];
    rgba[4 * i + 2] := snap[sidx + 2];
  }

  /** The four bytes of a pixel of the result. */
  ghost predicate PixelIs(img: seq<Byte>, solid: seq<bool>, seeds: seq<int>, i: nat, goal: seq<Byte>)
    requires |img| == |goal| == 4 * |solid| && |seeds| == |solid| && i < |solid|
  {
    var s := if !solid[i] && 0 <= seeds[i] < |solid| then seeds[i] else i;
    && goal[4 * i] == img[4 * s] && goal[4 * i + 1] == img[4 * s + 1]
    && goal[4 * i + 2] == img[4 * s + 2] && goal[4 * i + 3] == img[4 * i + 3]
  }

  lemma BledPixelIs(img: seq<Byte>, solid: seq<bool>, seeds: seq<int>, i: nat)
    requires |img| == 4 * |solid| && |seeds| == |solid| && i < |solid|
    ensures PixelIs(img, solid, seeds, i, BledWith(img, solid, seeds))
  {
    hide BledWith, BledByte;
    BledChannel(img, solid, seeds, i, 0);
    BledChannel(img, solid, seeds, i, 1);
    BledChannel(img, solid, seeds, i, 2);
    BledChannel(img, solid, seeds, i, 3);
  }

  /** Colours every transparent pixel that has a seed, from a snapshot of the image. */
  method Recolour(rgba: array<Byte>, cur: array<int>, w: nat, h: nat, ghost img: seq<Byte>, ghost seeds: seq<int>)
    requires Packable(w, h) && Shows(rgba, img, w, h)
    requires Seeds(w, h, seeds) && PackedUpTo(cur, w, h, seeds, |seeds|)
    modifies rgba
    ensures rgba[..] == BledWith(img, Solid(img), seeds)
  {
    hide Area, Solid, Pack, BledWith, BledByte;
    var snap := rgba[..];
    ghost var solid := Solid(img);
    ghost var goal := BledWith(img, solid, seeds);
    for i := 0 to cur.Length
      invariant forall j :: 0 <= j < 4 * i ==> rgba[j] == goal[j]
      invariant forall j :: 4 * i <= j < rgba.Length ==> rgba[j] == img[j]
    {
      BledPixelIs(img, solid, seeds, i);
      var s := cur[i];
      PackedNone(w, h, s, seeds[i]);
      if rgba[i * 4 + 3] == 0 && s != -1 {
        UnpackIndex(w, h, s, seeds[i]);
        CopyColour(rgba, snap, i, (UnpackY(s) * w + UnpackX(s)) * 4);
      }
      assert forall j :: 4 * i <= j < 4 * i + 4 ==>
                           j == 4 * i || j == 4 * i + 1 || j == 4 * i + 2 || rgba[j] == goal[j];
    }
  }

  /** Whether the image has both transparent and opaque pixels. */
  method Mixed(rgba: array<Byte>, n: nat) returns (mixed: bool)
    requires rgba.Length == 4 * n
    ensures !mixed ==> var solid := Solid(rgba[..]);
                       (forall i :: 0 <= i < n ==> solid[i]) || (forall i :: 0 <= i < n ==> !solid[i])
    ensures mixed ==> n > 0
  {
    var hasTransparent, hasOpaque := false, false;
    for i := 0 to n
      invariant !hasTransparent ==> forall j :: 0 <= j < i ==> rgba[4 * j + 3] > 0
      invariant !hasOpaque ==> forall j :: 0 <= j < i ==> rgba[4 * j + 3] == 0
      invariant hasTransparent || hasOpaque ==> n > 0
    {
      if rgba[4 * i + 3] == 0 {
        hasTransparent := true;
      } else {
        hasOpaque := true;
      }
      if hasTransparent && hasOpaque {
        break;
      }
    }
    mixed := hasTransparent && hasOpaque;
  }

  /** The packed implementation computes the flood over seed indices, for every image it can pack. */
  method AlphaBleedInPlace(rgba: array<Byte>, w: nat, h: nat)
    requires Image(rgba[..], w, h) && w <= 0xFFFF && h <= 0xFFFF
    modifies rgba
    ensures rgba[..] == Bled(old(rgba[..]), w, h)
  {
    ghost var img := rgba[..];
    var n := w * h;
    var mixed := Mixed(rgba, n);
    if !mixed {
      NothingToBleed(img, w, h);
      return;
    }
    assert w > 0;
    hide Bled, Area, Spread, Solid;
    var cur := new int[n](_ => -1);
    var next := new int[n](_ => -1);
    FillFirst(rgba, cur, w, h, img);
    ghost var solid := Solid(img);
    for r := 0 to |JUMP_OFFSETS|
      invariant cur != next && cur.Length == next.Length == n && fresh(cur) && fresh(next)
      invariant rgba[..] == img
      invariant PackedUpTo(cur, w, h, Spread(solid, w, h, JUMP_OFFSETS[..r]), n)
    {
      SpreadSeeds(solid, w, h, JUMP_OFFSETS[..r]);
      FillRound(rgba, cur, next, w, h, JUMP_OFFSETS[r], img, Spread(solid, w, h, JUMP_OFFSETS[..r]));
      SpreadMore(solid, w, h, r);
      cur, next := next, cur;
    }
    assert JUMP_OFFSETS[..|JUMP_OFFSETS|] == JUMP_OFFSETS;
    SpreadSeeds(solid, w, h, JUMP_OFFSETS);
    Recolour(rgba, cur, w, h, img, Spread(solid, w, h, JUMP_OFFSETS));
    BledIs(img, w, h);
  }

  lemma BledIs(rgba: seq<Byte>, w: nat, h: nat)
    requires Image(rgba, w, h) && w > 0
    ensures Bled(rgba, w, h) == BledWith(rgba, Solid(rgba), Spread(Solid(rgba), w, h, JUMP_OFFSETS))
  {
  }

  lemma SpreadMore(solid: seq<bool>, w: nat, h: nat, r: nat)
    requires w > 0 && |solid| == Area(w, h) && r < |JUMP_OFFSETS|
    ensures Spread(solid, w, h, []) == FirstSeeds(solid)
    ensures Spread(solid, w, h, JUMP_OFFSETS[..r + 1])
            == Round(solid, w, h, Spread(solid, w, h, JUMP_OFFSETS[..r]), JUMP_OFFSETS[r])
  {
    assert JUMP_OFFSETS[..r + 1][..r] == JUMP_OFFSETS[..r];
  }
}
