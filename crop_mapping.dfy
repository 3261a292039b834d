/** The crop of onPreviewFrame: the target view's rectangle on screen
    mapped into preview pixels by the two stored ratios, each component
    multiplied by its ratio and truncated toward zero, with no clamping to
    the preview's bounds. */
module CropMapping {
  import opened Sizes
  import opened PreviewSelection

  /** A rectangle as left, top, width and height, in pixels. */
  datatype Rect = Rect(left: int, top: int, width: int, height: int)

  /** v scaled by num/den and truncated toward zero, as Java's (int) cast
      truncates the product: the integer part of v * num / den. */
  function Scale(v: int, r: Ratio): (q: int)
    requires 0 < r.den
    ensures 0 <= v * r.num ==> 0 <= q && q * r.den <= v * r.num < (q + 1) * r.den
    ensures v * r.num < 0 ==> q <= 0 && (q - 1) * r.den < v * r.num <= q * r.den
  {
    var n := v * r.num;
    if 0 <= n then n / r.den else -((-n) / r.den)
  }

  /** The preview-pixel crop of the target rectangle: left and width by
      the width ratio, top and height by the height ratio. A ratio equal
      to 1, as stored after an exact fit, leaves its components as they
      are. */
  function MapToPreview(target: Rect, widthRatio: Ratio, heightRatio: Ratio): (crop: Rect)
    requires 0 < widthRatio.den && 0 < heightRatio.den
    ensures widthRatio.num == widthRatio.den ==> crop.left == target.left && crop.width == target.width
    ensures heightRatio.num == heightRatio.den ==> crop.top == target.top && crop.height == target.height
  {
    ScaleByOne(target.left, widthRatio);
    ScaleByOne(target.width, widthRatio);
    ScaleByOne(target.top, heightRatio);
    ScaleByOne(target.height, heightRatio);
    Rect(Scale(target.left, widthRatio), Scale(target.top, heightRatio),
         Scale(target.width, widthRatio), Scale(target.height, heightRatio))
  }

  lemma MulLeft(a: int, b: int, d: int)
    requires a <= b && 0 <= d
    ensures a * d <= b * d
  {
    assert b * d - a * d == (b - a) * d;
  }

  /** A ratio n/n maps every value to itself. */
  lemma ScaleByOne(v: int, r: Ratio)
    requires 0 < r.den
    ensures r.num == r.den ==> Scale(v, r) == v
  {
    if r.num == r.den {
      var q, d := Scale(v, r), r.den;
      if q < v {
        MulLeft(q + 1, v, d);
      } else if v < q {
        MulLeft(v + 1, q, d);
      }
    }
  }

  /** A larger screen value never maps to a smaller preview value. */
  lemma ScaleMonotone(v1: int, v2: int, r: Ratio)
    requires 0 < r.den && 0 <= r.num && v1 <= v2
    ensures Scale(v1, r) <= Scale(v2, r)
  {
    var q1, q2, d := Scale(v1, r), Scale(v2, r), r.den;
    MulLeft(v1, v2, r.num);
    if q2 < q1 {
      MulLeft(q2 + 1, q1, d);
      if v2 * r.num < 0 {
        MulLeft(q2, q1 - 1, d);
      }
    }
  }

  /** A target that lies on the screen maps to a crop that lies in the
      preview, when the ratios are the preview's dimensions over the
      screen's: the only guarantee the decoder gets, since nothing is
      clamped. */
  lemma CropInsidePreview(target: Rect, preview: Size, screen: Size)
    requires ValidScreen(screen) && 0 <= preview.width && 0 <= preview.height
    requires 0 <= target.left && 0 <= target.width && target.left + target.width <= screen.width
    requires 0 <= target.top && 0 <= target.height && target.top + target.height <= screen.height
    ensures var crop := MapToPreview(target, Ratio(preview.width, screen.width), Ratio(preview.height, screen.height));
      0 <= crop.left && 0 <= crop.width && crop.left + crop.width <= preview.width &&
      0 <= crop.top && 0 <= crop.height && crop.top + crop.height <= preview.height
  {
    SumWithinBound(target.left, target.width, preview.width, screen.width);
    SumWithinBound(target.top, target.height, preview.height, screen.height);
  }

  /** The truncated parts of a and b scaled by p/d never sum past p when
      a + b <= d. */
  lemma SumWithinBound(a: int, b: int, p: int, d: int)
    requires 0 < d && 0 <= p && 0 <= a && 0 <= b && a + b <= d
    ensures 0 <= Scale(a, Ratio(p, d)) && 0 <= Scale(b, Ratio(p, d))
    ensures Scale(a, Ratio(p, d)) + Scale(b, Ratio(p, d)) <= p
  {
    var r := Ratio(p, d);
    var qa, qb := Scale(a, r), Scale(b, r);
    MulLeft(0, a, p);
    MulLeft(0, b, p);
    assert qa * d <= a * p && qb * d <= b * p;
    MulLeft(a + b, d, p);
    Distribute(a, b, p);
    Distribute(qa, qb, d);
    if p < qa + qb {
      MulLeft(p + 1, qa + qb, d);
      Distribute(p, 1, d);
      assert false;
    }
  }

  lemma Distribute(x: int, y: int, m: int)
    ensures (x + y) * m == x * m + y * m
  {
  }

  /** Nothing is clamped: a target that starts at or past the screen's
      edge gives a crop that starts at or past the preview's edge. */
  lemma NoClampingPastScreenEdge(v: int, previewDim: int, screenDim: int)
    requires 0 < screenDim && 0 <= previewDim && screenDim <= v
    ensures previewDim <= Scale(v, Ratio(previewDim, screenDim))
  {
    var r := Ratio(previewDim, screenDim);
    ScaleMonotone(screenDim, v, r);
    var q := Scale(screenDim, r);
    if q < previewDim {
      MulLeft(q + 1, previewDim, screenDim);
    }
  }

  /** After an exact fit the crop is the target rectangle itself. */
  lemma ExactFitCropIsTarget(raw: seq<Size>, screen: Size, defaultSize: Size, target: Rect)
    requires ValidScreen(screen) && HasExactFit(raw, screen)
    ensures var sel := SelectPreview(raw, screen, defaultSize);
      MapToPreview(target, sel.widthRatio, sel.heightRatio) == target
  {
  }

  /** Half-size ratios halve each component, truncating after the
      multiplication: (100, 50, 40, 30) becomes (50, 25, 20, 15). */
  lemma HalfScaleExample()
    ensures MapToPreview(Rect(100, 50, 40, 30), Ratio(640, 1280), Ratio(360, 720)) == Rect(50, 25, 20, 15)
    ensures MapToPreview(Rect(101, 51, 41, 31), Ratio(640, 1280), Ratio(360, 720)) == Rect(50, 25, 20, 15)
  {
  }
}
