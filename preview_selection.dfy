/** setPreviewSize of SampleQrActivity: the choice of a camera preview
    size for the screen, first as a specification over sequences, then as
    the activity's method that sorts a copy of the camera's list and scans
    it, proved to agree with the specification. */
module PreviewSelection {
  import opened Wrappers
  import opened Sizes
  import opened PixelOrder

  /** What setPreviewSize leaves behind: the preview size and the two
      ratios that later map screen coordinates into the preview. */
  datatype Selection = Selection(size: Size, widthRatio: Ratio, heightRatio: Ratio)

  predicate HasExactFit(sizes: seq<Size>, screen: Size) {
    exists s :: s in sizes && ExactFit(s, screen)
  }

  predicate HasInBudget(sizes: seq<Size>) {
    exists s :: s in sizes && InBudget(s)
  }

  /** The position of the first size that fits the budget and, turned to
      landscape, equals the screen; None when there is none. */
  function FirstExact(s: seq<Size>, screen: Size): (r: Option<nat>)
    ensures r.None? <==> forall j :: 0 <= j < |s| ==> !ExactFit(s[j], screen)
    ensures r.Some? ==> r.value < |s| && ExactFit(s[r.value], screen)
    ensures r.Some? ==> forall j :: 0 <= j < r.value ==> !ExactFit(s[j], screen)
    decreases |s|
  {
    if s == [] then None
    else if ExactFit(s[0], screen) then Some(0)
    else match FirstExact(s[1..], screen)
      case None => None
      case Some(k) => Some(k + 1)
  }

  /** The position of the in-budget size whose landscape aspect ratio is
      closest to the screen's, the earliest one on a tie; None when no
      size fits the budget. The scan's rule read backwards: the last size
      replaces the best of those before it only when it is strictly
      closer. */
  function BestAspect(s: seq<Size>, screen: Size): (r: Option<nat>)
    requires ValidScreen(screen)
    ensures r.Some? ==> r.value < |s| && InBudget(s[r.value])
    decreases |s|
  {
    if s == [] then None
    else
      var prev := BestAspect(s[..|s| - 1], screen);
      var last := s[|s| - 1];
      if !InBudget(last) then prev
      else if prev.None? || AspectDiff(last, screen) < AspectDiff(s[prev.value], screen) then Some(|s| - 1)
      else prev
  }

  /** BestAspect finds a size exactly when one fits the budget; the size
      it finds is at least as close as every in-budget size and strictly
      closer than every in-budget size before it. */
  lemma {:induction false} BestAspectIsClosest(s: seq<Size>, screen: Size)
    requires ValidScreen(screen)
    ensures BestAspect(s, screen).None? <==> forall j :: 0 <= j < |s| ==> !InBudget(s[j])
    ensures var r := BestAspect(s, screen);
      r.Some? ==> forall j :: 0 <= j < |s| && InBudget(s[j]) ==>
        AspectDiff(s[r.value], screen) <= AspectDiff(s[j], screen)
    ensures var r := BestAspect(s, screen);
      r.Some? ==> forall j :: 0 <= j < r.value && InBudget(s[j]) ==>
        AspectDiff(s[r.value], screen) < AspectDiff(s[j], screen)
    decreases |s|
  {
    if s != [] {
      var t := s[..|s| - 1];
      BestAspectIsClosest(t, screen);
      assert forall j :: 0 <= j < |t| ==> t[j] == s[j];
    }
  }

  /** The sizes as setPreviewSize walks them: largest pixel count first. */
  function InPixelOrder(raw: seq<Size>): (sorted: seq<Size>)
    ensures |sorted| == |raw|
    ensures forall x :: x in sorted <==> x in raw
  {
    var sorted := SortedBy(raw, Pixels);
    assert forall x :: x in sorted <==> x in multiset(raw);
    sorted
  }

  /** The outcome of scanning `sizes` in the order given: the first exact
      fit with both ratios 1; otherwise the in-budget size closest to the
      screen's aspect ratio (the earliest on a tie), or the default size
      when none fits the budget, with ratios of its own dimensions to the
      screen's. */
  function ChooseFrom(sizes: seq<Size>, screen: Size, defaultSize: Size): (sel: Selection)
    requires ValidScreen(screen)
    ensures 0 < sel.widthRatio.den && 0 < sel.heightRatio.den
    ensures FirstExact(sizes, screen).Some? ==>
      sel == Selection(sizes[FirstExact(sizes, screen).value], Unit, Unit)
    ensures FirstExact(sizes, screen).None? ==>
      sel.widthRatio == Ratio(sel.size.width, screen.width) && sel.heightRatio == Ratio(sel.size.height, screen.height)
    ensures FirstExact(sizes, screen).None? && BestAspect(sizes, screen).Some? ==>
      sel.size == sizes[BestAspect(sizes, screen).value]
    ensures BestAspect(sizes, screen).None? ==> sel.size == defaultSize
  {
    BestAspectIsClosest(sizes, screen);
    match FirstExact(sizes, screen)
    case Some(k) => Selection(sizes[k], Unit, Unit)
    case None =>
      var chosen := match BestAspect(sizes, screen)
        case Some(k) => sizes[k]
        case None => defaultSize;
      Selection(chosen, Ratio(chosen.width, screen.width), Ratio(chosen.height, screen.height))
  }

  /** The size and ratios setPreviewSize stores for the camera's sizes
      `raw`, the screen and the camera's default preview size: the scan of
      the sizes in pixel order. */
  function SelectPreview(raw: seq<Size>, screen: Size, defaultSize: Size): (sel: Selection)
    requires ValidScreen(screen)
    ensures 0 < sel.widthRatio.den && 0 < sel.heightRatio.den
    ensures HasExactFit(raw, screen) ==>
      sel.size in raw && ExactFit(sel.size, screen) && sel.widthRatio == Unit && sel.heightRatio == Unit
    ensures !HasExactFit(raw, screen) ==>
      sel.widthRatio == Ratio(sel.size.width, screen.width) && sel.heightRatio == Ratio(sel.size.height, screen.height)
    ensures HasInBudget(raw) ==> sel.size in raw && InBudget(sel.size)
    ensures !HasInBudget(raw) ==> sel.size == defaultSize
    ensures !HasExactFit(raw, screen) && HasInBudget(raw) ==>
      forall s :: s in raw && InBudget(s) ==> AspectDiff(sel.size, screen) <= AspectDiff(s, screen)
  {
    BestAspectIsClosest(InPixelOrder(raw), screen);
    ChooseFrom(InPixelOrder(raw), screen, defaultSize)
  }

  /** An exact fit ends the scan: the first exact fit in pixel order is
      chosen with both ratios 1, whatever comes after it. */
  lemma ExactFitFirstInPixelOrder(raw: seq<Size>, screen: Size, defaultSize: Size, k: nat)
    requires ValidScreen(screen)
    requires k < |raw| && ExactFit(InPixelOrder(raw)[k], screen)
    requires forall j :: 0 <= j < k ==> !ExactFit(InPixelOrder(raw)[j], screen)
    ensures SelectPreview(raw, screen, defaultSize) == Selection(InPixelOrder(raw)[k], Unit, Unit)
  {
  }

  /** An exact fit with none before it is the first one. */
  lemma FirstExactAt(s: seq<Size>, screen: Size, i: nat)
    requires i < |s| && ExactFit(s[i], screen)
    requires forall j :: 0 <= j < i ==> !ExactFit(s[j], screen)
    ensures FirstExact(s, screen) == Some(i)
  {
  }

  /** One more size scanned: BestAspect over a longer prefix. */
  lemma BestAspectStep(s: seq<Size>, screen: Size, i: nat)
    requires ValidScreen(screen) && i < |s|
    ensures var prev := BestAspect(s[..i], screen);
      BestAspect(s[..i + 1], screen) ==
        if !InBudget(s[i]) then prev
        else if prev.None? || AspectDiff(s[i], screen) < AspectDiff(s[prev.value], screen) then Some(i)
        else prev
  {
    assert s[..i + 1][..i] == s[..i];
  }

  /** Without an exact fit the chosen size is the earliest, in pixel
      order, of the in-budget sizes closest to the screen's aspect ratio. */
  lemma BestAspectEarliestInPixelOrder(raw: seq<Size>, screen: Size, defaultSize: Size, k: nat)
    requires ValidScreen(screen) && !HasExactFit(raw, screen)
    requires k < |raw| && InBudget(InPixelOrder(raw)[k])
    requires forall j :: 0 <= j < |raw| && InBudget(InPixelOrder(raw)[j]) ==>
      AspectDiff(InPixelOrder(raw)[k], screen) <= AspectDiff(InPixelOrder(raw)[j], screen)
    requires forall j :: 0 <= j < k && InBudget(InPixelOrder(raw)[j]) ==>
      AspectDiff(InPixelOrder(raw)[k], screen) < AspectDiff(InPixelOrder(raw)[j], screen)
    ensures SelectPreview(raw, screen, defaultSize).size == InPixelOrder(raw)[k]
  {
    var sorted := InPixelOrder(raw);
    var b := BestAspect(sorted, screen);
    BestAspectIsClosest(sorted, screen);
    assert b.Some? && b.value == k;
  }

  /** Of two in-budget sizes equally close to the screen's aspect ratio,
      the one with fewer pixels is never chosen: the scan meets the larger
      first and a later tie does not replace it. */
  lemma TieGoesToMorePixels(raw: seq<Size>, screen: Size, defaultSize: Size, a: Size, b: Size)
    requires ValidScreen(screen) && !HasExactFit(raw, screen)
    requires a in raw && b in raw && InBudget(a) && InBudget(b)
    requires forall s :: s in raw && InBudget(s) ==> AspectDiff(a, screen) <= AspectDiff(s, screen)
    requires AspectDiff(a, screen) == AspectDiff(b, screen)
    requires Pixels(a) > Pixels(b)
    ensures SelectPreview(raw, screen, defaultSize).size != b
  {
    var sorted := InPixelOrder(raw);
    assert a in sorted;
    var ia :| 0 <= ia < |sorted| && sorted[ia] == a;
    assert forall j :: 0 <= j < |sorted| ==> sorted[j] in raw;
    ClosestFirstHasMostPixels(sorted, screen, ia);
    assert FirstExact(sorted, screen).None?;
  }

  /** In a list ordered by descending pixel count, the earliest closest
      in-budget size has at least as many pixels as any other closest
      one. */
  lemma ClosestFirstHasMostPixels(sorted: seq<Size>, screen: Size, ia: nat)
    requires ValidScreen(screen) && NonIncreasing(sorted, Pixels)
    requires ia < |sorted| && InBudget(sorted[ia])
    requires forall j :: 0 <= j < |sorted| && InBudget(sorted[j]) ==>
      AspectDiff(sorted[ia], screen) <= AspectDiff(sorted[j], screen)
    ensures BestAspect(sorted, screen).Some?
    ensures Pixels(sorted[BestAspect(sorted, screen).value]) >= Pixels(sorted[ia])
  {
    BestAspectIsClosest(sorted, screen);
    var k := BestAspect(sorted, screen).value;
    assert k <= ia;
  }

  /** A portrait size that turned to landscape is the screen is chosen
      as reported, with both ratios 1. */
  lemma PortraitExactFitExample(defaultSize: Size)
    ensures SelectPreview([Size(720, 1280)], Size(1280, 720), defaultSize) == Selection(Size(720, 1280), Unit, Unit)
  {
    assert ExactFit([Size(720, 1280)][0], Size(1280, 720));
  }

  /** Without an exact fit, an in-budget size strictly closer in aspect
      than every other in-budget size is the one chosen. */
  lemma StrictlyClosestIsChosen(raw: seq<Size>, screen: Size, defaultSize: Size, c: Size)
    requires ValidScreen(screen) && !HasExactFit(raw, screen)
    requires c in raw && InBudget(c)
    requires forall s :: s in raw && InBudget(s) && s != c ==> AspectDiff(c, screen) < AspectDiff(s, screen)
    ensures SelectPreview(raw, screen, defaultSize).size == c
  {
  }

  /** On a 1000x600 screen, 960x540 (aspect 16/9) is closer than 800x600
      (aspect 4/3) and is chosen. */
  lemma ClosestAspectExample(defaultSize: Size)
    ensures SelectPreview([Size(800, 600), Size(960, 540)], Size(1000, 600), defaultSize).size == Size(960, 540)
  {
    var screen := Size(1000, 600);
    assert AspectDiff(Size(960, 540), screen) == 1.0 / 9.0;
    assert AspectDiff(Size(800, 600), screen) == 1.0 / 3.0;
    StrictlyClosestIsChosen([Size(800, 600), Size(960, 540)], screen, defaultSize, Size(960, 540));
  }

  /** 320x240 has exactly the aspect ratio of a 640x480 screen, but lies
      below the pixel budget and is passed over. */
  lemma BelowBudgetExample(defaultSize: Size)
    ensures SelectPreview([Size(320, 240), Size(960, 540)], Size(640, 480), defaultSize).size == Size(960, 540)
  {
    assert !InBudget(Size(320, 240)) && InBudget(Size(960, 540));
    StrictlyClosestIsChosen([Size(320, 240), Size(960, 540)], Size(640, 480), defaultSize, Size(960, 540));
  }

  /** With no size in the budget the camera's default size is taken as it
      is, whether or not it fits the budget itself. */
  lemma FallbackExample()
    ensures SelectPreview([Size(320, 240)], Size(1280, 720), Size(176, 144)) ==
      Selection(Size(176, 144), Ratio(176, 1280), Ratio(144, 720))
  {
    assert !InBudget(Size(320, 240));
  }

  /** The activity's preview state: the fields setPreviewSize writes and
      onPreviewFrame reads. Before the first selection the size is unset
      and both ratios are 0, as Java initialises the fields. */
  class PreviewSession {
    var previewSize: Option<Size>
    var widthRatio: Ratio
    var heightRatio: Ratio

    /** The ratios can be applied: their denominators are positive. */
    ghost predicate Valid()
      reads this
    {
      0 < widthRatio.den && 0 < heightRatio.den
    }

    constructor ()
      ensures Valid()
      ensures previewSize == None && widthRatio == Ratio(0, 1) && heightRatio == Ratio(0, 1)
    {
      previewSize := None;
      widthRatio := Ratio(0, 1);
      heightRatio := Ratio(0, 1);
    }

    /** setPreviewSize: copies the camera's list, sorts the copy by pixel
        count and scans it, storing the chosen size and ratios. The
        camera's own list is left as it was. */
    method SetPreviewSize(rawPreviewSizes: array<Size>, screen: Size, defaultSize: Size)
      requires ValidScreen(screen)
      requires forall k :: 0 <= k < rawPreviewSizes.Length ==> FitsInt32(rawPreviewSizes[k])
      modifies this
      ensures Valid()
      ensures var sel := SelectPreview(rawPreviewSizes[..], screen, defaultSize);
        previewSize == Some(sel.size) && widthRatio == sel.widthRatio && heightRatio == sel.heightRatio
      ensures unchanged(rawPreviewSizes)
    {
      var supportPreviewSizes := new Size[rawPreviewSizes.Length](k requires 0 <= k < rawPreviewSizes.Length reads rawPreviewSizes => rawPreviewSizes[k]);
      assert supportPreviewSizes[..] == rawPreviewSizes[..];
      SortBy(supportPreviewSizes, Pixels);
      ScanPreviewSizes(supportPreviewSizes, screen, defaultSize);
    }

    /** The scan of setPreviewSize over the sorted copy: skips sizes
        outside the pixel budget, stops at the first size that turned to
        landscape is the screen, else keeps the size whose aspect ratio is
        strictly closer than any before it, and falls back to the camera's
        default size. */
    method ScanPreviewSizes(sizes: array<Size>, screen: Size, defaultSize: Size)
      requires ValidScreen(screen)
      modifies this
      ensures Valid()
      ensures var sel := ChooseFrom(sizes[..], screen, defaultSize);
        previewSize == Some(sel.size) && widthRatio == sel.widthRatio && heightRatio == sel.heightRatio
    {
      var screenAspect := screen.width as real / screen.height as real;
      ghost var s := sizes[..];
      var bestSize: Option<Size> := None;
      ghost var bestIndex: Option<nat> := None;
      var diff := 0.0;
      var i := 0;
      while i < sizes.Length
        invariant 0 <= i <= sizes.Length
        invariant forall j :: 0 <= j < i ==> !ExactFit(s[j], screen)
        invariant bestIndex == BestAspect(s[..i], screen)
        invariant bestIndex.None? ==> bestSize.None?
        invariant bestIndex.Some? ==> bestIndex.value < i && bestSize == Some(s[bestIndex.value])
        invariant bestIndex.Some? ==> diff == AspectDiff(s[bestIndex.value], screen)
      {
        var supportSize := sizes[i];
        assert supportSize == s[i];
        BestAspectStep(s, screen, i);
        var pixels := Pixels(supportSize);
        if MinPreviewPixels <= pixels <= MaxPreviewPixels {
          assert InBudget(supportSize);
          var preview := Landscape(supportSize);
          if preview.width == screen.width && preview.height == screen.height {
            FirstExactAt(s, screen, i);
            previewSize := Some(supportSize);
            widthRatio, heightRatio := Unit, Unit;
            return;
          }
          assert !ExactFit(s[i], screen);
          var aspect := preview.width as real / preview.height as real;
          var newDiff := Abs(aspect - screenAspect);
          assert newDiff == AspectDiff(supportSize, screen);
          if bestSize.None? || newDiff < diff {
            bestSize := Some(supportSize);
            bestIndex := Some(i);
            diff := newDiff;
          }
        } else {
          assert !InBudget(s[i]);
        }
        i := i + 1;
      }
      assert s[..i] == s;
      assert FirstExact(s, screen).None?;
      if bestSize.None? {
        bestSize := Some(defaultSize);
      }
      previewSize := bestSize;
      widthRatio := Ratio(bestSize.value.width, screen.width);
      heightRatio := Ratio(bestSize.value.height, screen.height);
    }
  }
}
