# SampleQR preview-size selection and crop mapping, in Dafny

SampleQR is an Android sample activity (`SampleQrActivity`) that shows a
camera preview and, on a touch, decodes one frame with ZXing. The logic
the activity writes itself is modelled here:

- **Preview-size selection** (`setPreviewSize`). The activity copies the
  camera's supported preview sizes and sorts the copy, largest pixel count
  first, with a stable sort. It walks the sorted copy and skips every size
  outside the pixel budget [470×320, 1280×720] = [150400, 921600]. It turns
  portrait sizes to landscape for the comparison. It stops at the first
  size that, turned, is exactly the screen, and then stores that size with
  both ratios 1. Otherwise it keeps the size whose aspect ratio is closest
  to the screen's; a later size replaces it only when it is strictly closer.
  When no size fits the budget it takes the camera's default preview size.
  It then stores the chosen size with the ratios width/screenWidth and
  height/screenHeight, from the size's own (unturned) dimensions.
- **Crop mapping** (`onPreviewFrame`). The target view's left, top, width
  and height are each multiplied by their ratio and truncated to an int.
  The result is not clamped to the preview.

Layout:

- `wrappers.dfy`: `Option`, for the activity's nullable `bestSize` and
  `mPreviewSize`.
- `sizes.dfy`: `Size`, the pixel budget, the landscape turn, the exact
  aspect difference and `Ratio`, an exact fraction num/den.
- `pixel_order.dfy`: the stable descending sort. `SortedBy` is the
  specification and `SortBy` the in-place insertion sort on the copied
  array. The sort is generic in its key; the activity's key is
  `Sizes.Pixels`. Lemmas give permutation, order, stability, and that the
  stable sort is unique.
- `preview_selection.dfy`: the scan as specification functions
  (`FirstExact`, `BestAspect`, `ChooseFrom`, `SelectPreview`). The class
  `PreviewSession` holds the activity's three fields; its methods
  `SetPreviewSize` and `ScanPreviewSizes` are proved to store exactly what
  `SelectPreview` gives.
- `crop_mapping.dfy`: `Scale` (multiply, then truncate toward zero),
  `MapToPreview` and lemmas about them.

Aspect ratios are compared exactly, with `real`, and each ratio is kept as
the exact fraction (previewDimension, screenDimension). The crop component
is then `v * num / den` truncated toward zero.

One behaviour of the code is worth knowing. An exact fit by a portrait
size (720×1280 on a 1280×720 screen) stores ratios 1, so the crop stays in
screen (landscape) coordinates. A portrait size chosen on the other path
gets ratios from its unturned dimensions. `PortraitExactFitExample` and
`ExactFitCropIsTarget` state the first case.

## Model

| member | source | states |
|---|---|---|
| `Sizes.InBudget` | src/me/gensan/sampleqr/SampleQrActivity.java:130-133 | a size passes when its pixel count is within [470*320, 1280*720], both ends included; a passing size has no zero dimension |
| `Sizes.Landscape` | src/me/gensan/sampleqr/SampleQrActivity.java:134-136 | the turned size is landscape (width >= height), has the same two dimensions and the same pixel count, and a size that is not portrait is left as it is |
| `Sizes.AspectDiff` | src/me/gensan/sampleqr/SampleQrActivity.java:143-144 | the distance between the turned size's aspect ratio and the screen's is never negative |
| `Sizes.AspectDiffZero` | src/me/gensan/sampleqr/SampleQrActivity.java:143-144 | the distance is zero exactly when the two aspect ratios agree, that is when the cross products are equal (turnedW * screenH == screenW * turnedH) |
| `PixelOrder.InsertLast` | src/me/gensan/sampleqr/SampleQrActivity.java:106-119 | one insertion step adds exactly one element: the result is the input plus `x` as a multiset |
| `PixelOrder.SortedBy` | src/me/gensan/sampleqr/SampleQrActivity.java:105-119 | the sorted list is a permutation of the input (same length and multiset) and is non-increasing in the key |
| `PixelOrder.SortedByIsStable` | src/me/gensan/sampleqr/SampleQrActivity.java:106-119 | elements with equal keys keep their input order: each group of equal-key elements is the same subsequence before and after the sort |
| `PixelOrder.StableSortIsUnique` | src/me/gensan/sampleqr/SampleQrActivity.java:106-119 | any arrangement that is non-increasing and keeps every equal-key group in input order is exactly `SortedBy`, so the insertion sort and Collections.sort agree |
| `PixelOrder.SortBy` | src/me/gensan/sampleqr/SampleQrActivity.java:105-119 | sorting the array in place leaves exactly `SortedBy` of its old contents |
| `PreviewSelection.InPixelOrder` | src/me/gensan/sampleqr/SampleQrActivity.java:104-119 | the order the scan walks has the same length and the same sizes as the camera's list |
| `PreviewSelection.FirstExact` | src/me/gensan/sampleqr/SampleQrActivity.java:134-142 | the position returned is an in-budget size that turned to landscape is the screen, and no earlier size is one; None exactly when no size is one |
| `PreviewSelection.BestAspect` | src/me/gensan/sampleqr/SampleQrActivity.java:125-148 | the position returned is in the list and holds an in-budget size |
| `PreviewSelection.BestAspectIsClosest` | src/me/gensan/sampleqr/SampleQrActivity.java:125-148 | BestAspect is None exactly when no size is in budget; otherwise its size's aspect difference is at most that of every in-budget size, and strictly below that of every earlier in-budget size |
| `PreviewSelection.ChooseFrom` | src/me/gensan/sampleqr/SampleQrActivity.java:125-156 | the first exact fit is stored as reported, with both ratios 1; otherwise the best-aspect size, or the default when none is in budget, is stored with ratios size.width/screen.width and size.height/screen.height |
| `PreviewSelection.SelectPreview` | src/me/gensan/sampleqr/SampleQrActivity.java:102-157 | an exact fit, when the list has one, is chosen from the list with ratios 1; a list with an in-budget size gives an in-budget size from the list; a list without one gives the default size; without an exact fit the chosen size is at least as close in aspect as every in-budget size, and the ratios use its native dimensions |
| `PreviewSelection.FirstExactAt` | src/me/gensan/sampleqr/SampleQrActivity.java:137-141 | an exact fit with no exact fit before it is the one FirstExact reports |
| `PreviewSelection.ExactFitFirstInPixelOrder` | src/me/gensan/sampleqr/SampleQrActivity.java:137-141 | the first exact fit in pixel order is stored with both ratios 1, whatever follows it |
| `PreviewSelection.BestAspectEarliestInPixelOrder` | src/me/gensan/sampleqr/SampleQrActivity.java:143-148 | without an exact fit, the earliest closest in-budget size in pixel order is chosen |
| `PreviewSelection.TieGoesToMorePixels` | src/me/gensan/sampleqr/SampleQrActivity.java:145-148 | of two in-budget sizes that tie for the closest aspect ratio, the one with fewer pixels is never chosen |
| `PreviewSelection.ClosestFirstHasMostPixels` | src/me/gensan/sampleqr/SampleQrActivity.java:143-148 | in a list in descending pixel order, the size BestAspect picks has at least as many pixels as any in-budget size that is closest in aspect |
| `PreviewSelection.StrictlyClosestIsChosen` | src/me/gensan/sampleqr/SampleQrActivity.java:143-148 | without an exact fit, an in-budget size from the list that is strictly closer in aspect than every other in-budget size is the one chosen |
| `PreviewSelection.PortraitExactFitExample` | src/me/gensan/sampleqr/SampleQrActivity.java:134-141 | 720x1280 on a 1280x720 screen is chosen as reported, with ratios 1 |
| `PreviewSelection.ClosestAspectExample` | src/me/gensan/sampleqr/SampleQrActivity.java:143-148 | on a 1000x600 screen, 960x540 is chosen over 800x600 |
| `PreviewSelection.BelowBudgetExample` | src/me/gensan/sampleqr/SampleQrActivity.java:130-133 | 320x240 is passed over on a 640x480 screen although its aspect ratio is exact |
| `PreviewSelection.FallbackExample` | src/me/gensan/sampleqr/SampleQrActivity.java:150-156 | with no size in budget, the default size is stored unchecked, with ratios of its dimensions to the screen's |
| `PreviewSelection.PreviewSession.constructor` | src/me/gensan/sampleqr/SampleQrActivity.java:43-45 | before any selection the size is unset and both ratios are 0 |
| `PreviewSelection.PreviewSession.SetPreviewSize` | src/me/gensan/sampleqr/SampleQrActivity.java:102-157 | the stored size and ratios are `SelectPreview` of the camera's list, and the camera's own array is unchanged |
| `PreviewSelection.PreviewSession.ScanPreviewSizes` | src/me/gensan/sampleqr/SampleQrActivity.java:120-156 | the loop with early return stores exactly `ChooseFrom` of the sorted copy |
| `CropMapping.Scale` | src/me/gensan/sampleqr/SampleQrActivity.java:163-166 | the result is the integer part of v * num / den, truncated toward zero: for a non-negative product q*den <= v*num < (q+1)*den, for a negative one (q-1)*den < v*num <= q*den |
| `CropMapping.MapToPreview` | src/me/gensan/sampleqr/SampleQrActivity.java:163-166 | a ratio equal to 1 leaves the components it scales unchanged |
| `CropMapping.ScaleByOne` | src/me/gensan/sampleqr/SampleQrActivity.java:163-166 | a ratio n/n maps every value to itself |
| `CropMapping.ScaleMonotone` | src/me/gensan/sampleqr/SampleQrActivity.java:163-166 | with a non-negative ratio, a larger screen value never gives a smaller preview value |
| `CropMapping.CropInsidePreview` | src/me/gensan/sampleqr/SampleQrActivity.java:163-170 | a target inside the screen, mapped with preview/screen ratios, gives a crop inside the preview |
| `CropMapping.NoClampingPastScreenEdge` | src/me/gensan/sampleqr/SampleQrActivity.java:163-166 | nothing is clamped: a value at or past the screen's edge maps to a value at or past the preview's edge |
| `CropMapping.ExactFitCropIsTarget` | src/me/gensan/sampleqr/SampleQrActivity.java:163-166 | after an exact fit the crop is the target rectangle itself |
| `CropMapping.HalfScaleExample` | src/me/gensan/sampleqr/SampleQrActivity.java:163-166 | half ratios map (100, 50, 40, 30) to (50, 25, 20, 15), and truncate after multiplying, so (101, 51, 41, 31) maps to the same |

## Left out

- The Android lifecycle (`onCreate`, `onResume`, `onPause`, opening and releasing the camera) and the surface callbacks: platform callbacks, not logic of the activity.
- Touch, autofocus and the one-shot preview callback (`onTouchEvent`, `onAutoFocus`): event wiring of the camera.
- ZXing decoding (`PlanarYUVLuminanceSource`, `HybridBinarizer`, `MultiFormatReader`), `Toast` and `Log`: a foreign library and UI calls. Only the crop rectangle handed to the decoder is modelled.
- How the screen size, the supported sizes and the default size are obtained (`WindowManager`, `Display`, `Camera.Parameters`): they are parameters.
- IEEE `float`: the aspect ratios, their difference and the ratio products are exact here. Float rounding can make two different sizes tie, or break an exact tie, and can move a truncated crop value by one; the model does not capture that.
- `SetPreviewSize`: requires positive camera dimensions whose product fits a 32-bit int, because the Java comparator and budget test overflow otherwise; sizes beyond that are not modelled.
- `Scale`: does not model the saturation of Java's float-to-int cast for results beyond the int range.
- Collections.sort's own algorithm (a merge sort) is replaced by an insertion sort. A stable sort by a key has only one possible result (`StableSortIsUnique`), so the order the scan sees is the same.
- `setPreviewSize` is one Java method. Here its copy-and-sort part is `SetPreviewSize` and its loop is `ScanPreviewSizes`, which `SetPreviewSize` calls.
- No error is raised when the camera reports no sizes. The code then takes the camera's default size, as it does when no size fits the budget. The model follows the code.
- The camera's list is a sequence with order and possible repeats, as in the code, not a set.
