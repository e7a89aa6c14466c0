/**
 * The off-screen mask: a naturalWidth x naturalHeight raster whose pixels
 * are either "keep" (painted black) or "erase" (painted white).
 *
 * The buffer itself is an array2 indexed [x, y]; its value, for
 * specifications and for the emitted result, is a Grid g with g[x][y] the
 * pixel in column x and row y. A brush stamp is an idealised filled circle:
 * a pixel is inside when its centre (x + 0.5, y + 0.5) is at most r away
 * from the stamp's centre.
 */
module Raster {
  import opened Geometry

  datatype Pixel = Keep | Erase

  type Grid = seq<seq<Pixel>>

  /** One circular stamp in image space. */
  datatype Disc = Disc(centre: Point, radius: real)

  /** g has w columns of h pixels each. */
  predicate IsRaster(g: Grid, w: nat, h: nat) {
    |g| == w && forall x :: 0 <= x < w ==> |g[x]| == h
  }

  /** The freshly filled mask: w x h, every pixel "keep". */
  function Blank(w: nat, h: nat): (g: Grid)
    ensures IsRaster(g, w, h)
    ensures forall x, y :: 0 <= x < w && 0 <= y < h ==> g[x][y] == Keep
  {
    seq(w, _ => seq(h, _ => Keep))
  }

  /** The pixel (x, y) is covered by the filled circle d. */
  predicate InDisc(x: int, y: int, d: Disc) {
    var dx := x as real + 0.5 - d.centre.x;
    var dy := y as real + 0.5 - d.centre.y;
    dx * dx + dy * dy <= d.radius * d.radius
  }

  /** g after one stamp of d: the covered pixels are set to "erase". */
  function Stamped(g: Grid, d: Disc): (s: Grid)
    ensures |s| == |g| && forall x :: 0 <= x < |g| ==> |s[x]| == |g[x]|
  {
    seq(|g|, x requires 0 <= x < |g| =>
      seq(|g[x]|, y requires 0 <= y < |g[x]| =>
        if InDisc(x, y, d) then Erase else g[x][y]))
  }

  /** g after a stroke: one stamp per pointer sample, in order. */
  function Painted(g: Grid, ds: seq<Disc>): (r: Grid)
    decreases |ds|
  {
    if ds == [] then g else Painted(Stamped(g, ds[0]), ds[1..])
  }

  // ---------------------------------------------------------------------
  // Properties of stamping

  /** A stamp erases exactly the covered pixels and leaves the others alone. */
  lemma StampChangesOnlyDisc(g: Grid, d: Disc, x: int, y: int)
    requires 0 <= x < |g| && 0 <= y < |g[x]|
    ensures InDisc(x, y, d) ==> Stamped(g, d)[x][y] == Erase
    ensures !InDisc(x, y, d) ==> Stamped(g, d)[x][y] == g[x][y]
  {
  }

  /** Two equally shaped grids that agree on every pixel are equal. */
  lemma GridExt(g: Grid, h: Grid)
    requires |g| == |h| && forall x :: 0 <= x < |g| ==> |g[x]| == |h[x]|
    requires forall x, y :: 0 <= x < |g| && 0 <= y < |g[x]| ==> g[x][y] == h[x][y]
    ensures g == h
  {
    forall x | 0 <= x < |g|
      ensures g[x] == h[x]
    {
      assert forall y :: 0 <= y < |g[x]| ==> g[x][y] == h[x][y];
    }
  }

  /** Pixels are set, not accumulated: stamping twice equals stamping once. */
  lemma StampIdempotent(g: Grid, d: Disc)
    ensures Stamped(Stamped(g, d), d) == Stamped(g, d)
  {
    GridExt(Stamped(Stamped(g, d), d), Stamped(g, d));
  }

  /** The order of two stamps does not matter. */
  lemma StampsCommute(g: Grid, d1: Disc, d2: Disc)
    ensures Stamped(Stamped(g, d1), d2) == Stamped(Stamped(g, d2), d1)
  {
    GridExt(Stamped(Stamped(g, d1), d2), Stamped(Stamped(g, d2), d1));
  }

  /** Painting never changes the mask's dimensions. */
  lemma {:induction false} PaintedKeepsShape(g: Grid, ds: seq<Disc>, w: nat, h: nat)
    requires IsRaster(g, w, h)
    ensures IsRaster(Painted(g, ds), w, h)
    decreases |ds|
  {
    if ds != [] {
      PaintedKeepsShape(Stamped(g, ds[0]), ds[1..], w, h);
    }
  }

  /**
   * After a stroke, a pixel is "erase" exactly when it already was or some
   * stamp of the stroke covers it.
   */
  lemma {:induction false} PaintedAt(g: Grid, ds: seq<Disc>, w: nat, h: nat, x: nat, y: nat)
    requires IsRaster(g, w, h) && x < w && y < h
    ensures IsRaster(Painted(g, ds), w, h)
    ensures Painted(g, ds)[x][y] == Erase <==>
              g[x][y] == Erase || exists k :: 0 <= k < |ds| && InDisc(x, y, ds[k])
    decreases |ds|
  {
    PaintedKeepsShape(g, ds, w, h);
    if ds != [] {
      var g' := Stamped(g, ds[0]);
      PaintedAt(g', ds[1..], w, h, x, y);
      if exists k :: 0 <= k < |ds[1..]| && InDisc(x, y, ds[1..][k]) {
        var k :| 0 <= k < |ds[1..]| && InDisc(x, y, ds[1..][k]);
        assert InDisc(x, y, ds[k + 1]);
      }
      if exists k :: 0 <= k < |ds| && InDisc(x, y, ds[k]) {
        var k :| 0 <= k < |ds| && InDisc(x, y, ds[k]);
        if k > 0 {
          assert InDisc(x, y, ds[1..][k - 1]);
        }
      }
    }
  }

  /** The refill of clearMask: same dimensions, every pixel "keep". */
  function Cleared(g: Grid): (c: Grid)
    ensures forall w, h :: IsRaster(g, w, h) ==> IsRaster(c, w, h)
    ensures forall x, y :: 0 <= x < |c| && 0 <= y < |c[x]| ==> c[x][y] == Keep
  {
    Blank(|g|, if g == [] then 0 else |g[0]|)
  }

  /**
   * Clearing after any stroke restores the freshly initialised mask: the
   * stroke keeps the dimensions, and the refill is Blank at those dimensions.
   */
  lemma ClearAfterPaint(w: nat, h: nat, ds: seq<Disc>)
    ensures Cleared(Painted(Blank(w, h), ds)) == Blank(w, h)
  {
    PaintedKeepsShape(Blank(w, h), ds, w, h);
  }

  /**
   * Worked example at scale 1: on a 100 x 100 image shown at 100 x 100, a
   * 20-pixel brush at display (50, 50) stamps the mask at (50, 50) with
   * radius 10, so pixel (59, 50) is erased and pixel (60, 50) is kept.
   */
  lemma UnitScaleExample()
    ensures var l := Layout(100, 100, 100, 100);
            var s := Stamped(Blank(100, 100), Disc(ToImage(l, Point(50.0, 50.0)), MaskRadius(l, 20)));
            s[50][50] == Erase && s[59][50] == Erase && s[60][50] == Keep && s[40][50] == Erase
  {
    var l := Layout(100, 100, 100, 100);
    assert ImageScaleX(l) == 1.0 && ImageScaleY(l) == 1.0;
    assert Disc(ToImage(l, Point(50.0, 50.0)), MaskRadius(l, 20)) == Disc(Point(50.0, 50.0), 10.0);
    StampChangesOnlyDisc(Blank(100, 100), Disc(Point(50.0, 50.0), 10.0), 59, 50);
    StampChangesOnlyDisc(Blank(100, 100), Disc(Point(50.0, 50.0), 10.0), 60, 50);
  }

  // ---------------------------------------------------------------------
  // The buffer

  /** The pixels of the buffer as a grid. */
  function Contents(a: array2<Pixel>): (g: Grid)
    reads a
    ensures IsRaster(g, a.Length0, a.Length1)
    ensures forall x, y :: 0 <= x < a.Length0 && 0 <= y < a.Length1 ==> g[x][y] == a[x, y]
  {
    seq(a.Length0, x requires 0 <= x < a.Length0 reads a =>
      seq(a.Length1, y requires 0 <= y < a.Length1 reads a => a[x, y]))
  }

  /** fillRect over the whole buffer with "keep". */
  method FillKeep(a: array2<Pixel>)
    modifies a
    ensures Contents(a) == Blank(a.Length0, a.Length1)
  {
    var x := 0;
    while x < a.Length0
      invariant 0 <= x <= a.Length0
      invariant forall i, j :: 0 <= i < x && 0 <= j < a.Length1 ==> a[i, j] == Keep
    {
      var y := 0;
      while y < a.Length1
        invariant 0 <= y <= a.Length1
        invariant forall i, j :: 0 <= i < x && 0 <= j < a.Length1 ==> a[i, j] == Keep
        invariant forall j :: 0 <= j < y ==> a[x, j] == Keep
      {
        a[x, y] := Keep;
        y := y + 1;
      }
      x := x + 1;
    }
    GridExt(Contents(a), Blank(a.Length0, a.Length1));
  }

  /** arc().fill() with "erase" on the buffer, as an ideal disc. */
  method StampDisc(a: array2<Pixel>, d: Disc)
    modifies a
    ensures Contents(a) == Stamped(old(Contents(a)), d)
  {
    ghost var before := Contents(a);
    var x := 0;
    while x < a.Length0
      invariant 0 <= x <= a.Length0
      invariant forall i, j :: 0 <= i < x && 0 <= j < a.Length1 ==>
                  a[i, j] == if InDisc(i, j, d) then Erase else before[i][j]
      invariant forall i, j :: x <= i < a.Length0 && 0 <= j < a.Length1 ==> a[i, j] == before[i][j]
    {
      var y := 0;
      while y < a.Length1
        invariant 0 <= y <= a.Length1
        invariant forall i, j :: 0 <= i < x && 0 <= j < a.Length1 ==>
                    a[i, j] == if InDisc(i, j, d) then Erase else before[i][j]
        invariant forall i, j :: x < i < a.Length0 && 0 <= j < a.Length1 ==> a[i, j] == before[i][j]
        invariant forall j :: 0 <= j < y ==> a[x, j] == if InDisc(x, j, d) then Erase else before[x][j]
        invariant forall j :: y <= j < a.Length1 ==> a[x, j] == before[x][j]
      {
        if InDisc(x, y, d) {
          a[x, y] := Erase;
        }
        y := y + 1;
      }
      x := x + 1;
    }
    GridExt(Contents(a), Stamped(before, d));
  }
}
