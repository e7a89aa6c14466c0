/**
 * The object selector component: its state (mode, drawing flag, selected
 * detection, brush size), the mask buffer, and one method per event it
 * handles. Each event method does what the component's handler does; the
 * image element's dimensions are held in `layout` and supplied by the load
 * and resize events.
 */
module Selector {
  import opened Geometry
  import opened HitTest
  import opened Raster

  datatype Mode = Auto | Manual

  /** What the component hands to its caller. */
  datatype Selection =
    | BoxSelection(x1: real, y1: real, x2: real, y2: real)
    | RasterSelection(manualMask: Grid)

  /** The mask stamp for a brush of the given size at display point p. */
  function BrushDisc(l: Layout, brushSize: int, p: Point): (d: Disc)
    requires l.Rendered()
  {
    Disc(ToImage(l, p), MaskRadius(l, brushSize))
  }

  /**
   * The stamp on the mask lies, seen on the display, under the pointer and
   * has the display brush's radius horizontally.
   */
  lemma BrushDiscUnderPointer(l: Layout, brushSize: int, p: Point)
    requires l.Ready()
    ensures ToDisplay(l, BrushDisc(l, brushSize, p).centre) == p
    ensures BrushDisc(l, brushSize, p).radius * DisplayScaleX(l) == brushSize as real / 2.0
  {
  }

  /** A two-sample stroke is the two stamps in order. */
  lemma PaintTwo(g: Grid, d1: Disc, d2: Disc)
    ensures Painted(g, [d1, d2]) == Stamped(Stamped(g, d1), d2)
  {
    assert [d1, d2][1..] == [d2] && [d2][1..] == [];
    calc {
      Painted(g, [d1, d2]);
      Painted(Stamped(g, d1), [d2]);
      Painted(Stamped(Stamped(g, d1), d2), []);
    }
  }

  class ObjectSelector {
    var layout: Layout
    var detections: seq<Detection>
    var selectedBox: Option<nat>
    var mode: Mode
    var isDrawing: bool
    var brushSize: int
    var mask: array2<Pixel>

    /** The mask is sized to the image's natural dimensions; the brush is in range. */
    ghost predicate Valid()
      reads this
    {
      mask.Length0 == layout.naturalW && mask.Length1 == layout.naturalH &&
      5 <= brushSize <= 50
    }

    /** Mounting: initial state, then the first run of the effect. */
    constructor (l: Layout, dets: seq<Detection>)
      ensures Valid() && fresh(mask)
      ensures layout == l && detections == dets
      ensures selectedBox == None && mode == Auto && !isDrawing && brushSize == 20
      ensures Contents(mask) == Blank(l.naturalW, l.naturalH)
    {
      layout := l;
      detections := dets;
      selectedBox := None;
      mode := Auto;
      isDrawing := false;
      brushSize := 20;
      var m := new Pixel[l.naturalW, l.naturalH];
      FillKeep(m);
      mask := m;
    }

    /** The effect body: a new mask at natural size, filled with "keep". */
    method ReinitMask()
      requires 5 <= brushSize <= 50
      modifies this`mask
      ensures Valid() && fresh(mask)
      ensures Contents(mask) == Blank(layout.naturalW, layout.naturalH)
    {
      var m := new Pixel[layout.naturalW, layout.naturalH];
      FillKeep(m);
      mask := m;
    }

    /** The image (new or first) has decoded with dimensions l. */
    method Load(l: Layout)
      requires Valid()
      modifies this`layout, this`mask
      ensures Valid() && fresh(mask) && layout == l
      ensures Contents(mask) == Blank(l.naturalW, l.naturalH)
    {
      layout := l;
      ReinitMask();
    }

    /** The page was re-laid out: only the rendered size changes. */
    method Resize(clientW: nat, clientH: nat)
      requires Valid()
      modifies this`layout
      ensures Valid()
      ensures layout == old(layout).(clientW := clientW, clientH := clientH)
    {
      layout := layout.(clientW := clientW, clientH := clientH);
    }

    /** The detections prop changed, which re-runs the effect. */
    method SetDetections(dets: seq<Detection>)
      requires Valid()
      modifies this`detections, this`mask
      ensures Valid() && fresh(mask) && detections == dets
      ensures Contents(mask) == Blank(layout.naturalW, layout.naturalH)
    {
      detections := dets;
      ReinitMask();
    }

    /**
     * A mode button. Setting the current mode again changes nothing; an
     * actual change re-runs the effect, which replaces the mask with a blank
     * one. The selected box and the drawing flag are left as they were.
     */
    method SetMode(m: Mode)
      requires Valid()
      modifies this`mode, this`mask
      ensures Valid() && mode == m
      ensures m == old(mode) ==> mask == old(mask) && Contents(mask) == old(Contents(mask))
      ensures m != old(mode) ==> fresh(mask) && Contents(mask) == Blank(layout.naturalW, layout.naturalH)
    {
      if m != mode {
        mode := m;
        ReinitMask();
      }
    }

    /** The brush-size slider, shown in manual mode only. */
    method SetBrushSize(size: int)
      requires Valid() && mode == Manual && 5 <= size <= 50
      modifies this`brushSize
      ensures Valid() && brushSize == size
    {
      brushSize := size;
    }

    /**
     * A click at display point p. In auto mode the first detection whose
     * drawn box contains p becomes the selected one and its unscaled box is
     * emitted; otherwise nothing changes and nothing is emitted.
     */
    method Click(p: Point) returns (emitted: Option<Selection>)
      requires Valid() && (mode == Auto ==> layout.Decoded())
      modifies this`selectedBox
      ensures Valid()
      ensures mode == Manual ==> emitted == None
      ensures mode == Auto ==> (emitted == None <==> IsFirstHit(detections, layout, p, None))
      ensures emitted == None ==> selectedBox == old(selectedBox)
      ensures emitted != None ==>
                mode == Auto && selectedBox != None &&
                IsFirstHit(detections, layout, p, selectedBox) &&
                var b := detections[selectedBox.value].box;
                emitted == Some(BoxSelection(b.x1, b.y1, b.x2, b.y2))
    {
      if mode != Auto {
        return None;
      }
      var hit := FindHit(detections, layout, p);
      match hit
      case None =>
        emitted := None;
      case Some(i) =>
        selectedBox := Some(i);
        var b := detections[i].box;
        emitted := Some(BoxSelection(b.x1, b.y1, b.x2, b.y2));
    }

    /** One stamp of the brush at display point p, on the mask. */
    method DrawBrush(p: Point)
      requires Valid() && layout.Rendered()
      modifies mask
      ensures Contents(mask) == Stamped(old(Contents(mask)), BrushDisc(layout, brushSize, p))
    {
      StampDisc(mask, BrushDisc(layout, brushSize, p));
    }

    /** Pointer pressed: in manual mode, start a stroke with one stamp. */
    method MouseDown(p: Point)
      requires Valid() && (mode == Manual ==> layout.Rendered())
      modifies this`isDrawing, mask
      ensures Valid()
      ensures mode == Manual ==>
                isDrawing &&
                Contents(mask) == Stamped(old(Contents(mask)), BrushDisc(layout, brushSize, p))
      ensures mode == Auto ==>
                isDrawing == old(isDrawing) && Contents(mask) == old(Contents(mask))
    {
      if mode != Manual {
        return;
      }
      isDrawing := true;
      DrawBrush(p);
    }

    /** Pointer moved: stamp once, but only in manual mode during a stroke. */
    method MouseMove(p: Point)
      requires Valid() && (mode == Manual && isDrawing ==> layout.Rendered())
      modifies mask
      ensures Valid()
      ensures mode == Manual && isDrawing ==>
                Contents(mask) == Stamped(old(Contents(mask)), BrushDisc(layout, brushSize, p))
      ensures !(mode == Manual && isDrawing) ==> Contents(mask) == old(Contents(mask))
    {
      if mode != Manual || !isDrawing {
        return;
      }
      DrawBrush(p);
    }

    /** Pointer released: the stroke ends, in either mode. */
    method MouseUp()
      requires Valid()
      modifies this`isDrawing
      ensures Valid() && !isDrawing
    {
      isDrawing := false;
    }

    /** Pointer left the canvas: wired to the same handler as MouseUp. */
    method MouseLeave()
      requires Valid()
      modifies this`isDrawing
      ensures Valid() && !isDrawing
    {
      MouseUp();
    }

    /** The Clear button (manual mode): refill the whole mask with "keep". */
    method ClearMask()
      requires Valid() && mode == Manual
      modifies mask
      ensures Valid()
      ensures Contents(mask) == Cleared(old(Contents(mask)))
      ensures Contents(mask) == Blank(layout.naturalW, layout.naturalH)
    {
      FillKeep(mask);
    }

    /**
     * The Remove Object button (manual mode): emit the current mask, whatever
     * it holds, including a mask with no "erase" pixel at all.
     */
    method Submit() returns (sel: Selection)
      requires Valid() && mode == Manual
      ensures sel == RasterSelection(Contents(mask))
      ensures sel.RasterSelection? && IsRaster(sel.manualMask, layout.naturalW, layout.naturalH)
    {
      sel := RasterSelection(Contents(mask));
    }
  }

  // -----------------------------------------------------------------------
  // Event sequences

  /**
   * Press at p, drag through q, release, move again at q, then submit: the
   * emitted mask is the blank mask with exactly the two stamps applied; the
   * move after the release paints nothing.
   */
  method StrokeThenSubmit(l: Layout, p: Point, q: Point) returns (sel: Selection)
    requires l.Rendered()
    ensures sel == RasterSelection(
              Painted(Blank(l.naturalW, l.naturalH), [BrushDisc(l, 20, p), BrushDisc(l, 20, q)]))
  {
    var s := new ObjectSelector(l, []);
    s.SetMode(Manual);
    ghost var g0 := Contents(s.mask);
    s.MouseDown(p);
    s.MouseMove(q);
    s.MouseUp();
    s.MouseMove(q);
    sel := s.Submit();
    PaintTwo(g0, BrushDisc(l, 20, p), BrushDisc(l, 20, q));
  }

  /** Painting and then clearing leaves the same mask as a fresh mount. */
  method PaintThenClear(l: Layout, p: Point) returns (sel: Selection)
    requires l.Rendered()
    ensures sel == RasterSelection(Blank(l.naturalW, l.naturalH))
  {
    var s := new ObjectSelector(l, []);
    s.SetMode(Manual);
    s.MouseDown(p);
    s.MouseLeave();
    s.ClearMask();
    sel := s.Submit();
  }

  /**
   * Toggling to auto and back discards the strokes: the mode is an effect
   * dependency, so each change re-creates the mask.
   */
  method ModeToggleDiscardsStrokes(l: Layout, p: Point) returns (sel: Selection)
    requires l.Rendered()
    ensures sel == RasterSelection(Blank(l.naturalW, l.naturalH))
  {
    var s := new ObjectSelector(l, []);
    s.SetMode(Manual);
    s.MouseDown(p);
    s.SetMode(Auto);
    s.SetMode(Manual);
    sel := s.Submit();
  }

  /**
   * An 800x600 image shown at 400x300 with one detection at
   * (100,100)-(300,300): a click at display (100,100) selects it and emits
   * its image-space box.
   */
  method HalfScaleClick() returns (emitted: Option<Selection>)
    ensures emitted == Some(BoxSelection(100.0, 100.0, 300.0, 300.0))
  {
    var det := Detection(Box(100.0, 100.0, 300.0, 300.0), "object", 0.9);
    var s := new ObjectSelector(Layout(800, 600, 400, 300), [det]);
    HalfScaleExample();
    emitted := s.Click(Point(100.0, 100.0));
    FirstHitUnique([det], s.layout, Point(100.0, 100.0), s.selectedBox, Some(0));
  }
}
