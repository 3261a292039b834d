/** Preview sizes as the camera reports them, the pixel budget a preview
    size must fit, the landscape turn used to compare a size with the
    screen, and the exact ratios that map screen coordinates to preview
    coordinates. */
module Sizes {

  /** A width-by-height pair: a camera preview size, the screen, or the
      chosen preview size. */
  datatype Size = Size(width: int, height: int)

  /** The pixel budget of SampleQrActivity (inclusive on both ends). */
  const MinPreviewPixels: int := 470 * 320
  const MaxPreviewPixels: int := 1280 * 720

  function Pixels(s: Size): int {
    s.width * s.height
  }

  /** A size whose pixel count lies in the budget; such a size never has a
      zero dimension, so its aspect ratio is defined. */
  predicate InBudget(s: Size)
    ensures InBudget(s) ==> s.width != 0 && s.height != 0
  {
    MinPreviewPixels <= Pixels(s) <= MaxPreviewPixels
  }

  predicate IsPortrait(s: Size) {
    s.width < s.height
  }

  /** The size turned to landscape: a portrait size has its two
      dimensions swapped, any other size is left as it is. */
  function Landscape(s: Size): (o: Size)
    ensures o.width >= o.height
    ensures o == s || o == Size(s.height, s.width)
    ensures !IsPortrait(s) ==> o == s
    ensures Pixels(o) == Pixels(s)
  {
    if IsPortrait(s) then Size(s.height, s.width) else s
  }

  /** A camera size the activity's int arithmetic handles: positive
      dimensions whose product does not overflow a 32-bit int. */
  predicate FitsInt32(s: Size) {
    0 < s.width && 0 < s.height && s.width * s.height <= 0x7fff_ffff
  }

  /** The screen size the display reports: both dimensions positive. */
  predicate ValidScreen(screen: Size) {
    0 < screen.width && 0 < screen.height
  }

  /** A size that fits the budget and, turned to landscape, is exactly
      the screen: the case that ends the search at once. */
  predicate ExactFit(s: Size, screen: Size) {
    InBudget(s) && Landscape(s) == screen
  }

  function Abs(x: real): real {
    if x < 0.0 then -x else x
  }

  /** How far the landscape aspect ratio of `s` is from the screen's, in
      exact arithmetic. */
  function AspectDiff(s: Size, screen: Size): (d: real)
    requires s.width != 0 && s.height != 0
    requires ValidScreen(screen)
    ensures 0.0 <= d
  {
    var o := Landscape(s);
    Abs(o.width as real / o.height as real - screen.width as real / screen.height as real)
  }

  /** The aspect difference is zero exactly when the two aspect ratios
      agree, that is when the cross products are equal. */
  lemma AspectDiffZero(s: Size, screen: Size)
    requires s.width != 0 && s.height != 0
    requires ValidScreen(screen)
    ensures AspectDiff(s, screen) == 0.0 <==>
      Landscape(s).width * screen.height == screen.width * Landscape(s).height
  {
    var o := Landscape(s);
    CrossProductEquality(o.width, o.height, screen.width, screen.height);
  }

  /** Two quotients are equal exactly when their cross products are. */
  lemma CrossProductEquality(a: int, b: int, c: int, d: int)
    requires b != 0 && d != 0
    ensures a as real / b as real == c as real / d as real <==> a * d == c * b
  {
    var x, y := a as real / b as real, c as real / d as real;
    assert a as real == x * b as real;
    assert c as real == y * d as real;
    assert (a * d) as real == x * (b as real) * (d as real);
    assert (c * b) as real == y * (b as real) * (d as real);
    if a * d == c * b {
      assert (x - y) * ((b as real) * (d as real)) == 0.0;
    }
  }

  /** A scale factor num/den, kept exact: the activity stores
      previewDimension / screenDimension, or the literal 1. */
  datatype Ratio = Ratio(num: int, den: int)

  const Unit: Ratio := Ratio(1, 1)

  function Value(r: Ratio): real
    requires r.den != 0
  {
    r.num as real / r.den as real
  }
}
