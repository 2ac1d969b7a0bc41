/** Cover fitting of the background image: the image is scaled, keeping its aspect
    ratio, to the smallest size that covers the whole canvas, and centred on it. */
module CoverFit {

  /** Where the background image is drawn: top-left offset and drawn size. */
  datatype Rect = Rect(offsetX: real, offsetY: real, drawWidth: real, drawHeight: real)

  /** The drawn rectangle covers the width x height canvas. */
  predicate Covers(r: Rect, width: real, height: real)
  {
    r.offsetX <= 0.0 && r.offsetY <= 0.0
    && r.offsetX + r.drawWidth >= width && r.offsetY + r.drawHeight >= height
  }

  /** The drawn rectangle has the image's aspect ratio. */
  predicate KeepsAspect(r: Rect, imgWidth: real, imgHeight: real)
  {
    r.drawWidth * imgHeight == r.drawHeight * imgWidth
  }

  /** The drawn rectangle is centred on the canvas. */
  predicate Centred(r: Rect, width: real, height: real)
  {
    r.offsetX == (width - r.drawWidth) / 2.0 && r.offsetY == (height - r.drawHeight) / 2.0
  }

  /** The cover rectangle for an image of imgWidth x imgHeight on a width x height canvas.
      A relatively wider image is drawn at the canvas height and shifted left by half its
      overhang; otherwise it is drawn at the canvas width and shifted up. */
  function Cover(imgWidth: real, imgHeight: real, width: real, height: real): (r: Rect)
    requires imgWidth > 0.0 && imgHeight > 0.0 && width > 0.0 && height > 0.0
    ensures Covers(r, width, height) && KeepsAspect(r, imgWidth, imgHeight) && Centred(r, width, height)
    ensures imgWidth / imgHeight > width / height ==>
      r.drawHeight == height && r.offsetY == 0.0 && r.drawWidth > width
    ensures imgWidth / imgHeight <= width / height ==>
      r.drawWidth == width && r.offsetX == 0.0 && r.drawHeight >= height
  {
    var imgRatio := imgWidth / imgHeight;
    var canvasRatio := width / height;
    if imgRatio > canvasRatio then
      var drawWidth := height * imgRatio;
      RatioScale(imgRatio, canvasRatio, height);
      Rect((width - drawWidth) / 2.0, 0.0, drawWidth, height)
    else
      var drawHeight := width / imgRatio;
      RatioDivide(imgRatio, canvasRatio, width, height);
      Rect(0.0, (height - drawHeight) / 2.0, width, drawHeight)
  }

  /** height * imgRatio exceeds width when imgRatio exceeds width / height. */
  lemma RatioScale(imgRatio: real, canvasRatio: real, height: real)
    requires height > 0.0 && imgRatio > canvasRatio
    ensures height * imgRatio > height * canvasRatio
  {
  }

  /** width / imgRatio is at least height when imgRatio is at most width / height. */
  lemma RatioDivide(imgRatio: real, canvasRatio: real, width: real, height: real)
    requires width > 0.0 && height > 0.0 && imgRatio > 0.0
    requires canvasRatio == width / height && imgRatio <= canvasRatio
    ensures width / imgRatio >= height
  {
    assert width == canvasRatio * height;
    assert width / imgRatio == canvasRatio / imgRatio * height;
    assert canvasRatio / imgRatio >= 1.0;
  }

  /** The cover rectangle is the smallest covering one: any rectangle with the image's
      aspect ratio that covers the canvas is at least as large. */
  lemma CoverIsSmallest(imgWidth: real, imgHeight: real, width: real, height: real, s: Rect)
    requires imgWidth > 0.0 && imgHeight > 0.0 && width > 0.0 && height > 0.0
    requires Covers(s, width, height) && KeepsAspect(s, imgWidth, imgHeight)
    ensures s.drawWidth >= Cover(imgWidth, imgHeight, width, height).drawWidth
    ensures s.drawHeight >= Cover(imgWidth, imgHeight, width, height).drawHeight
  {
    var r := Cover(imgWidth, imgHeight, width, height);
    assert s.drawWidth >= width && s.drawHeight >= height;
    assert r.drawWidth * imgHeight == r.drawHeight * imgWidth;
    if imgWidth / imgHeight > width / height {
      // r.drawHeight == height <= s.drawHeight, and the widths follow the heights
      ScaleByRatio(s.drawHeight, r.drawHeight, imgWidth, imgHeight, s.drawWidth, r.drawWidth);
    } else {
      ScaleByRatio(s.drawWidth, r.drawWidth, imgHeight, imgWidth, s.drawHeight, r.drawHeight);
    }
  }

  /** Two rectangles of the same aspect ratio: the one with the larger side x has the
      larger side y. */
  lemma ScaleByRatio(x1: real, x2: real, a: real, b: real, y1: real, y2: real)
    requires a > 0.0 && b > 0.0 && x1 >= x2
    requires y1 * b == x1 * a && y2 * b == x2 * a
    ensures y1 >= y2
  {
    assert (y1 - y2) * b == (x1 - x2) * a;
    assert (x1 - x2) * a >= 0.0;
  }

  /** An image with the canvas's aspect ratio is drawn exactly over the canvas. */
  lemma CoverExact(imgWidth: real, imgHeight: real, width: real, height: real)
    requires imgWidth > 0.0 && imgHeight > 0.0 && width > 0.0 && height > 0.0
    requires imgWidth * height == width * imgHeight
    ensures Cover(imgWidth, imgHeight, width, height) == Rect(0.0, 0.0, width, height)
  {
    assert imgWidth / imgHeight == width / height;
    var r := Cover(imgWidth, imgHeight, width, height);
    assert r.drawWidth == width;
    assert r.drawHeight * imgWidth == width * imgHeight;
    assert r.drawHeight * imgWidth == height * imgWidth;
  }
}
