/**
 * Detection boxes and the auto-mode hit test: a click in display space
 * selects the first detection, in list order, whose box drawn at display
 * scale contains the click, edges included.
 */
module HitTest {
  import opened Geometry

  datatype Option<T> = None | Some(value: T)

  /** A detector result: a box in image space, a class label, a confidence. */
  datatype Detection = Detection(box: Box, labelText: string, conf: real)

  /** The click at display point p falls on detection d as drawn on the overlay. */
  predicate Hits(l: Layout, d: Detection, p: Point)
    requires l.Decoded()
  {
    InBox(ScaleBox(l, d.box), p)
  }

  /**
   * hit is the first-match answer for a click at p: the lowest index whose
   * drawn box contains p, or None when no box does.
   */
  predicate IsFirstHit(dets: seq<Detection>, l: Layout, p: Point, hit: Option<nat>)
    requires l.Decoded()
  {
    match hit
    case Some(i) =>
      i < |dets| && Hits(l, dets[i], p) &&
      forall j :: 0 <= j < i ==> !Hits(l, dets[j], p)
    case None =>
      forall j :: 0 <= j < |dets| ==> !Hits(l, dets[j], p)
  }

  /** The search loop of the click handler, with its early return. */
  method FindHit(dets: seq<Detection>, l: Layout, p: Point) returns (hit: Option<nat>)
    requires l.Decoded()
    ensures IsFirstHit(dets, l, p, hit)
  {
    var i := 0;
    while i < |dets|
      invariant 0 <= i <= |dets|
      invariant forall j :: 0 <= j < i ==> !Hits(l, dets[j], p)
    {
      if Hits(l, dets[i], p) {
        return Some(i);
      }
      i := i + 1;
    }
    return None;
  }

  /** The first-match answer is unique: the hit test is deterministic. */
  lemma FirstHitUnique(dets: seq<Detection>, l: Layout, p: Point, h1: Option<nat>, h2: Option<nat>)
    requires l.Decoded()
    requires IsFirstHit(dets, l, p, h1) && IsFirstHit(dets, l, p, h2)
    ensures h1 == h2
  {
  }

  /**
   * Overlapping boxes: when two detections both contain the click, the
   * later one is never the answer; ties go to the earlier index.
   */
  lemma OverlapPrefersLowerIndex(dets: seq<Detection>, l: Layout, p: Point, i: nat, j: nat, hit: Option<nat>)
    requires l.Decoded()
    requires i < j < |dets| && Hits(l, dets[i], p) && Hits(l, dets[j], p)
    requires IsFirstHit(dets, l, p, hit)
    ensures hit.Some? && hit.value <= i
  {
  }

  /**
   * Hitting a drawn box is containment of the click, mapped to image space,
   * in the detection's own box.
   */
  lemma HitsIffImageContainment(l: Layout, d: Detection, p: Point)
    requires l.Ready()
    ensures Hits(l, d, p) <==> InBox(d.box, ToImage(l, p))
  {
    InScaledBoxIff(l, d.box, p);
  }

  /**
   * Worked example: an 800x600 image shown at 400x300 with one detection at
   * (100,100)-(300,300) draws it at (50,50)-(150,150), and a click at
   * (100,100) selects it.
   */
  lemma HalfScaleExample()
    ensures ScaleBox(Layout(800, 600, 400, 300), Box(100.0, 100.0, 300.0, 300.0))
         == Box(50.0, 50.0, 150.0, 150.0)
    ensures IsFirstHit([Detection(Box(100.0, 100.0, 300.0, 300.0), "object", 0.9)],
                       Layout(800, 600, 400, 300), Point(100.0, 100.0), Some(0))
  {
  }
}
