/** The view transform (surface = document * scale + offset) and the
    fit-and-centre arithmetic of BSVGView::_CalculateAutoScale. */
module ViewGeometry {
  import opened Affine

  datatype ViewTransform = ViewTransform(scale: real, offsetX: real, offsetY: real) {
    /** `p * fScale + fOffset`, as every coordinate the view emits is mapped. */
    function Map(p: Point): Point
    {
      Point(p.x * scale + offsetX, p.y * scale + offsetY)
    }

    /** The document point a surface point comes from. */
    function Unmap(q: Point): (p: Point)
      requires scale != 0.0
      ensures Map(p) == q
    {
      var x := (q.x - offsetX) / scale;
      var y := (q.y - offsetY) / scale;
      assert x * scale == q.x - offsetX && y * scale == q.y - offsetY;
      assert Map(Point(x, y)) == Point(x * scale + offsetX, y * scale + offsetY);
      Point(x, y)
    }
  }

  /** A BRect; Width() and Height() are right - left and bottom - top. */
  datatype Rect = Rect(left: real, top: real, right: real, bottom: real) {
    function Width(): real { right - left }
    function Height(): real { bottom - top }
    predicate IsValid() { left <= right && top <= bottom }
  }

  const Padding: real := 10.0

  /** BSVGView.cpp:486-494: the area the image may take, the bounds less a
      10-unit margin on every side unless that leaves nothing, in which case
      the whole bounds. */
  function AvailableArea(width: real, height: real): (area: (real, real))
    requires width > 0.0 && height > 0.0
    ensures 0.0 < area.0 <= width && 0.0 < area.1 <= height
    ensures area == (width - 2.0 * Padding, height - 2.0 * Padding) || area == (width, height)
    ensures area == (width, height) <==> (width <= 2.0 * Padding || height <= 2.0 * Padding)
  {
    var availableWidth := width - 2.0 * Padding;
    var availableHeight := height - 2.0 * Padding;
    if availableWidth <= 0.0 || availableHeight <= 0.0 then (width, height)
    else (availableWidth, availableHeight)
  }

  /** BSVGView.cpp:496-499: the smaller of the two axis ratios, the largest
      scale at which the image fits the available area. */
  function FitScale(availableWidth: real, availableHeight: real, width: real, height: real): (s: real)
    requires availableWidth > 0.0 && availableHeight > 0.0 && width > 0.0 && height > 0.0
    ensures s > 0.0
    ensures width * s <= availableWidth && height * s <= availableHeight
    ensures width * s == availableWidth || height * s == availableHeight
  {
    var scaleX := availableWidth / width;
    var scaleY := availableHeight / height;
    assert width * scaleX == availableWidth;
    assert height * scaleY == availableHeight;
    if scaleX < scaleY then
      assert height * scaleX <= height * scaleY;
      scaleX
    else
      assert width * scaleY <= width * scaleX;
      scaleY
  }

  /** BSVGView.cpp:184-185 and 504-505: the offset that centres an extent of
      `scaled` units in `available` units. */
  function CenterOffset(available: real, scaled: real): (offset: real)
    ensures offset + scaled / 2.0 == available / 2.0
    ensures offset + scaled + offset == available
  {
    (available - scaled) / 2.0
  }

  /** No scale that fits is larger than the chosen one: it is the best fit. */
  lemma FitScaleIsLargest(availableWidth: real, availableHeight: real, width: real, height: real, s: real)
    requires availableWidth > 0.0 && availableHeight > 0.0 && width > 0.0 && height > 0.0
    requires width * s <= availableWidth && height * s <= availableHeight
    ensures s <= FitScale(availableWidth, availableHeight, width, height)
  {
    var f := FitScale(availableWidth, availableHeight, width, height);
    if width * f == availableWidth {
      assert width * s <= width * f;
    } else {
      assert height * s <= height * f;
    }
  }

  /** The auto-scaled document lies inside the bounds, centred, and at least
      the padding away from every edge when the bounds leave room for it. */
  lemma FittedInside(width: real, height: real, docWidth: real, docHeight: real)
    requires width > 0.0 && height > 0.0 && docWidth > 0.0 && docHeight > 0.0
    ensures var area := AvailableArea(width, height);
      var s := FitScale(area.0, area.1, docWidth, docHeight);
      var x := CenterOffset(width, docWidth * s);
      var y := CenterOffset(height, docHeight * s);
      && 0.0 <= x && x + docWidth * s <= width
      && 0.0 <= y && y + docHeight * s <= height
      && (width > 2.0 * Padding && height > 2.0 * Padding ==> Padding <= x && Padding <= y)
  {
    var area := AvailableArea(width, height);
    var s := FitScale(area.0, area.1, docWidth, docHeight);
    assert docWidth * s <= area.0 <= width;
    assert docHeight * s <= area.1 <= height;
  }
}
