/**
 * Geometry mapping between display space (the rendered <img>'s client box)
 * and image space (the image's natural pixel grid).
 *
 * The selector reads the four dimensions of the image element at every
 * event and derives two pairs of scales from them: client/natural to draw
 * and hit-test detection boxes, natural/client to place brush stamps on the
 * full-resolution mask. Coordinates are ideal reals here.
 */
module Geometry {

  datatype Point = Point(x: real, y: real)

  /** An axis-aligned box given by its corners (x1, y1) and (x2, y2). */
  datatype Box = Box(x1: real, y1: real, x2: real, y2: real)

  /** The image element's natural size and its current rendered size. */
  datatype Layout = Layout(naturalW: nat, naturalH: nat, clientW: nat, clientH: nat)
  {
    /** The image has decoded: the client/natural scales are defined. */
    predicate Decoded() {
      naturalW > 0 && naturalH > 0
    }

    /** The image has been laid out: the natural/client scales are defined. */
    predicate Rendered() {
      clientW > 0 && clientH > 0
    }

    /** Both pairs of scales are defined. */
    predicate Ready() {
      Decoded() && Rendered()
    }
  }

  // Image space to display space (drawDetections, handleCanvasClick).
  function DisplayScaleX(l: Layout): (s: real)
    requires l.Decoded()
  {
    l.clientW as real / l.naturalW as real
  }

  function DisplayScaleY(l: Layout): (s: real)
    requires l.Decoded()
  {
    l.clientH as real / l.naturalH as real
  }

  // Display space to image space (drawBrush).
  function ImageScaleX(l: Layout): (s: real)
    requires l.Rendered()
  {
    l.naturalW as real / l.clientW as real
  }

  function ImageScaleY(l: Layout): (s: real)
    requires l.Rendered()
  {
    l.naturalH as real / l.clientH as real
  }

  function ToDisplay(l: Layout, p: Point): (q: Point)
    requires l.Decoded()
  {
    Point(p.x * DisplayScaleX(l), p.y * DisplayScaleY(l))
  }

  function ToImage(l: Layout, p: Point): (q: Point)
    requires l.Rendered()
  {
    Point(p.x * ImageScaleX(l), p.y * ImageScaleY(l))
  }

  /** A detection box as it is drawn and hit-tested on the overlay. */
  function ScaleBox(l: Layout, b: Box): (sb: Box)
    requires l.Decoded()
  {
    Box(b.x1 * DisplayScaleX(l), b.y1 * DisplayScaleY(l),
        b.x2 * DisplayScaleX(l), b.y2 * DisplayScaleY(l))
  }

  /** Containment with all four edges inclusive. */
  predicate InBox(b: Box, p: Point) {
    b.x1 <= p.x <= b.x2 && b.y1 <= p.y <= b.y2
  }

  /**
   * Radius of a brush stamp on the mask: half the brush size, in display
   * pixels, scaled by the horizontal image scale only.
   */
  function MaskRadius(l: Layout, brushSize: int): (r: real)
    requires l.Rendered()
  {
    (brushSize as real / 2.0) * ImageScaleX(l)
  }

  // ---------------------------------------------------------------------
  // Properties

  /** The display and image scales are reciprocal on both axes. */
  lemma ScalesReciprocal(l: Layout)
    requires l.Ready()
    ensures DisplayScaleX(l) > 0.0 && ImageScaleX(l) > 0.0
    ensures DisplayScaleY(l) > 0.0 && ImageScaleY(l) > 0.0
    ensures DisplayScaleX(l) * ImageScaleX(l) == 1.0
    ensures DisplayScaleY(l) * ImageScaleY(l) == 1.0
  {
  }

  /** Mapping a display point to the image and back returns the point. */
  lemma DisplayImageRoundTrip(l: Layout, p: Point)
    requires l.Ready()
    ensures ToDisplay(l, ToImage(l, p)) == p
  {
  }

  /** Mapping an image point to the display and back returns the point. */
  lemma ImageDisplayRoundTrip(l: Layout, p: Point)
    requires l.Ready()
    ensures ToImage(l, ToDisplay(l, p)) == p
  {
  }

  /** Comparing u*s with v is comparing u with v*t when t = 1/s > 0. */
  lemma ScaledLe(u: real, v: real, s: real, t: real)
    requires s > 0.0 && t > 0.0 && s * t == 1.0
    ensures u * s <= v <==> u <= v * t
    ensures v <= u * s <==> v * t <= u
  {
  }

  /**
   * A display point lies in a box drawn at display scale exactly when the
   * point, mapped to image space, lies in the original box.
   */
  lemma InScaledBoxIff(l: Layout, b: Box, p: Point)
    requires l.Ready()
    ensures InBox(ScaleBox(l, b), p) <==> InBox(b, ToImage(l, p))
  {
    ScalesReciprocal(l);
    ScaledLe(b.x1, p.x, DisplayScaleX(l), ImageScaleX(l));
    ScaledLe(b.x2, p.x, DisplayScaleX(l), ImageScaleX(l));
    ScaledLe(b.y1, p.y, DisplayScaleY(l), ImageScaleY(l));
    ScaledLe(b.y2, p.y, DisplayScaleY(l), ImageScaleY(l));
  }

  /**
   * The mask radius is the display brush radius: mapped back by the
   * horizontal display scale it is half the brush size.
   */
  lemma MaskRadiusMatchesDisplay(l: Layout, brushSize: int)
    requires l.Ready()
    ensures MaskRadius(l, brushSize) * DisplayScaleX(l) == brushSize as real / 2.0
  {
  }
}
