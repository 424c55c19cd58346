/**
 * The positions of the seven passes of Adam7 interlacing, section 2.6 of RFC 2083: they partition the
 * pixels of every image.
 */
module PngAdam7 {
  const X_START: seq<nat> := [0, 4, 0, 2, 0, 1, 0]
  const Y_START: seq<nat> := [0, 0, 4, 0, 2, 0, 1]
  const X_STEP: seq<nat> := [8, 8, 4, 4, 2, 2, 1]
  const Y_STEP: seq<nat> := [8, 8, 8, 4, 4, 2, 2]

  type Pass = p: nat | p < 7

  // ---------- One axis ----------

  ghost predicate StepOk(step: nat) {
    step == 1 || step == 2 || step == 4 || step == 8
  }

  /** How many of the positions start, start + step, ... lie below `size`. */
  function Extent(start: nat, step: nat, size: nat): nat
    requires step >= 1
  {
    if size > start then (size - start + step - 1) / step else 0
  }

  function Coord(start: nat, step: nat, k: nat): nat {
    start + k * step
  }

  ghost predicate OnGrid(start: nat, step: nat, x: nat)
    requires step >= 1
  {
    x >= start && (x - start) % step == 0
  }

  ghost function Index(start: nat, step: nat, x: nat): nat
    requires step >= 1
  {
    if x >= start then (x - start) / step else 0
  }

  /** The first `Extent` grid positions are exactly those inside. */
  lemma GridExtent(start: nat, step: nat, size: nat, k: nat)
    requires StepOk(step)
    ensures k < Extent(start, step, size) <==> Coord(start, step, k) < size
  {
    if step == 1 {
    } else if step == 2 {
    } else if step == 4 {
    }
  }

  lemma GridCoord(start: nat, step: nat, k: nat)
    requires StepOk(step)
    ensures OnGrid(start, step, Coord(start, step, k)) && Index(start, step, Coord(start, step, k)) == k
  {
  }

  lemma GridResidue(start: nat, step: nat, x: nat)
    requires StepOk(step) && start < step
    ensures OnGrid(start, step, x) <==> x % step == start
  {
    if step == 1 {
    } else if step == 2 {
      assert x >= start ==> ((x - start) % 2 == 0 <==> x % 2 == start);
    } else if step == 4 {
      ResidueOf4(start, x);
    } else {
      ResidueOf8(start, x);
    }
  }

  lemma ResidueOf4(start: nat, x: nat)
    requires start < 4
    ensures OnGrid(start, 4, x) <==> x % 4 == start
  {
  }

  lemma ResidueOf8(start: nat, x: nat)
    requires start < 8
    ensures OnGrid(start, 8, x) <==> x % 8 == start
  {
  }

  lemma GridIndex(start: nat, step: nat, size: nat, x: nat)
    requires StepOk(step) && OnGrid(start, step, x)
    ensures Coord(start, step, Index(start, step, x)) == x
    ensures x < size ==> Index(start, step, x) < Extent(start, step, size)
  {
  }

  // ---------- Passes ----------

  lemma Tables()
    ensures |X_START| == 7 && |Y_START| == 7 && |X_STEP| == 7 && |Y_STEP| == 7
    ensures forall p: Pass :: StepOk(X_STEP[p]) && StepOk(Y_STEP[p])
  {
  }

  function PassWidth(w: nat, p: Pass): nat {
    Tables();
    Extent(X_START[p], X_STEP[p], w)
  }

  function PassHeight(h: nat, p: Pass): nat {
    Tables();
    Extent(Y_START[p], Y_STEP[p], h)
  }

  function RealX(p: Pass, px: nat): nat {
    Tables();
    Coord(X_START[p], X_STEP[p], px)
  }

  function RealY(p: Pass, py: nat): nat {
    Tables();
    Coord(Y_START[p], Y_STEP[p], py)
  }

  ghost predicate InPass(p: Pass, x: nat, y: nat) {
    Tables();
    OnGrid(X_START[p], X_STEP[p], x) && OnGrid(Y_START[p], Y_STEP[p], y)
  }

  /** Where a pixel lies within its pass. */
  ghost function PassX(p: Pass, x: nat): nat {
    Tables();
    Index(X_START[p], X_STEP[p], x)
  }

  ghost function PassY(p: Pass, y: nat): nat {
    Tables();
    Index(Y_START[p], Y_STEP[p], y)
  }

  /** The pass of a pixel. */
  function PassOf(x: nat, y: nat): Pass {
    if y % 2 == 1 then 6
    else if x % 2 == 1 then 5
    else if y % 4 == 2 then 4
    else if x % 4 == 2 then 3
    else if y % 8 == 4 then 2
    else if x % 8 == 4 then 1
    else 0
  }

  /** Every pixel is in exactly one pass. */
  lemma OnePass(x: nat, y: nat, p: Pass)
    ensures InPass(p, x, y) <==> p == PassOf(x, y)
  {
    Tables();
    GridResidue(X_START[p], X_STEP[p], x);
    GridResidue(Y_START[p], Y_STEP[p], y);
    Residues(x);
    Residues(y);
    hide OnGrid;
  }

  lemma Residues(x: nat)
    ensures x % 4 == 0 <==> x % 8 == 0 || x % 8 == 4
    ensures x % 2 == 0 <==> x % 4 == 0 || x % 4 == 2
    ensures x % 1 == 0
  {
    Halves(x, 4);
    Halves(x, 2);
  }

  /** Dividing by twice as much splits each residue class in two. */
  lemma Halves(x: nat, m: nat)
    requires m == 2 || m == 4
    ensures x % m == 0 <==> x % (2 * m) == 0 || x % (2 * m) == m
  {
    var q, r := x / (2 * m), x % (2 * m);
    if m == 2 {
      assert x == 2 * (2 * q) + r;
    } else {
      assert x == 4 * (2 * q) + r;
    }
  }

  /** A pass position that exists is a pixel of the image; the decoder's bounds guard always holds. */
  lemma PassInside(w: nat, h: nat, p: Pass, px: nat, py: nat)
    ensures px < PassWidth(w, p) <==> RealX(p, px) < w
    ensures py < PassHeight(h, p) <==> RealY(p, py) < h
    ensures InPass(p, RealX(p, px), RealY(p, py)) && PassX(p, RealX(p, px)) == px && PassY(p, RealY(p, py)) == py
  {
    Tables();
    GridExtent(X_START[p], X_STEP[p], w, px);
    GridExtent(Y_START[p], Y_STEP[p], h, py);
    GridCoord(X_START[p], X_STEP[p], px);
    GridCoord(Y_START[p], Y_STEP[p], py);
    hide X_START, Y_START, X_STEP, Y_STEP, Coord, Extent, OnGrid, Index;
  }

  /** A pixel of the image has its position in its pass. */
  lemma PixelInPass(w: nat, h: nat, p: Pass, x: nat, y: nat)
    requires InPass(p, x, y)
    ensures RealX(p, PassX(p, x)) == x && RealY(p, PassY(p, y)) == y
    ensures x < w ==> PassX(p, x) < PassWidth(w, p)
    ensures y < h ==> PassY(p, y) < PassHeight(h, p)
  {
    Tables();
    GridIndex(X_START[p], X_STEP[p], w, x);
    GridIndex(Y_START[p], Y_STEP[p], h, y);
    hide X_START, Y_START, X_STEP, Y_STEP, Coord, Extent, OnGrid, Index;
  }

  ghost predicate Writes(w: nat, h: nat, p: Pass, px: nat, py: nat, x: nat, y: nat) {
    px < PassWidth(w, p) && py < PassHeight(h, p) && RealX(p, px) == x && RealY(p, py) == y
  }

  /** Over the seven passes each pixel of the image is written exactly once, and nothing else is. */
  lemma WrittenOnce(w: nat, h: nat, x: nat, y: nat, p: Pass, px: nat, py: nat)
    ensures Writes(w, h, p, px, py, x, y)
            <==> x < w && y < h && p == PassOf(x, y) && px == PassX(p, x) && py == PassY(p, y)
  {
    hide PassWidth, PassHeight, RealX, RealY, InPass, PassX, PassY, PassOf;
    OnePass(x, y, p);
    PassInside(w, h, p, px, py);
    if InPass(p, x, y) {
      PixelInPass(w, h, p, x, y);
    }
  }
}
