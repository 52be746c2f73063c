# Text-region selection of ToadOCRPreprocessor, in Dafny

ToadOCRPreprocessor finds candidate text regions in a scanned or photographed document.
It runs a fixed morphology chain over the image: a horizontal Sobel gradient, Otsu
binarisation, a dilation with a 24×4 element, an erosion with a 30×9 element and a
second dilation. It then traces the contours of the resulting mask. `findTextRegion`
walks those contours in discovery order. It drops every contour whose area is below 700.
It drops every contour whose minimum-area rectangle has an axis-aligned bounding box
taller than 0.9 times its width. For each remaining contour it emits the rectangle's four
corner points.

This project models that selection rule and proves what it guarantees.

- `geometry.dfy` (module `Geometry`): points, axis-aligned rectangles and rotated
  rectangles, as the image library reports them.
- `text_region.dfy` (module `TextRegion`): a contour is abstracted as a `MeasuredContour`
  record. The record holds the library's results for that contour: its area, arc length,
  approximated polygon and minimum-area rectangle. The module defines the two rejection
  tests, the specification function `TextRegions`, and the independent enumeration
  `AcceptedIndices`. `FindTextRegion` is the source's loop: a `for` loop that `continue`s
  on each rejection and appends each survivor. It is proved equal to `TextRegions`.
- `text_region_properties.dfy` (module `TextRegionProperties`): the output is exactly the
  order-preserving selection of the accepted contours (an if-and-only-if). It also holds
  soundness, completeness, insensitivity to everything except area, bounding box and
  corners, and the boundary cases.
- `preprocess.dfy` (module `Preprocess`): the kernel sizes and the order of the
  morphology steps, as constants only.

Arithmetic. The area is a `float64` compared with the literal 700; it is modelled as a
`real`, and that comparison is exact. The aspect test `mHeight > mWidth * 0.9` compares
float conversions of integer coordinate differences. It is modelled in exact real
arithmetic, and `AspectIntegerForm` proves that this equals `10 * h > 9 * w`.
The float test agrees with the exact one in the range that occurs:
- widths and heights are non-negative, because a bounding box always has `Max >= Min`;
- they are far below 2^50;
- the double nearest 0.9 lies slightly above 0.9, so when `h` is exactly `0.9 * w` the
  rounded product is never below `h`, and the contour is kept in both versions.

The comparison at main.go:120 is a strict `>`, so a bounding height of exactly 0.9 times
the width is kept (`RatioBoundary`). Likewise, the area test at main.go:106 is a strict
`<`, so an area of exactly 700 is kept and any smaller area is dropped (`AreaBoundary`).

## Model

| member | source | states |
|---|---|---|
| `TextRegion.FindTextRegion` | main.go:96-127 | The loop's result equals `TextRegions(contours)`: contours are visited in index order, each kept exactly when it passes both tests, each survivor contributing its rectangle's corner points. An empty contour list yields an empty result, with no error. |
| `TextRegion.TextRegions` | main.go:98-126 | At most one region is emitted per contour: the output is no longer than the contour list. |
| `TextRegion.AcceptedIndices` | main.go:100-122 | The accepted positions form a strictly increasing sequence. Every listed position is an in-range contour that passes both tests, and every contour that passes both tests is listed. |
| `TextRegionProperties.TextRegionsSelectsAccepted` | main.go:100-124 | There are as many regions as accepted contours. The k-th region is exactly the corner points of the k-th accepted contour's minimum-area rectangle, unmodified. |
| `TextRegionProperties.FilterCharacterization` | main.go:100-125 | A sequence is the output if and only if it is the order-preserving selection of exactly the accepted contours' corner points. |
| `TextRegionProperties.PrefixRegions` | main.go:98-124 | The regions emitted for a prefix of the contour list are a prefix of the full output: regions are only ever appended. |
| `TextRegionProperties.AspectIntegerForm` | main.go:116-120 | The aspect rejection `height > width * 0.9` holds exactly when `10 * height > 9 * width`. |
| `TextRegionProperties.EmittedPassBothTests` | main.go:103-122 | Every emitted region is the rectangle of some contour whose area is at least 700 and whose bounding height is at most 0.9 times its bounding width. |
| `TextRegionProperties.AcceptedContoursEmitted` | main.go:100-125 | Every contour with area at least 700 and bounding height at most 0.9 times its width is emitted. Its position in the output is the number of accepted contours before it. |
| `TextRegionProperties.DecisionDataSuffices` | main.go:103-124 | Two contour lists that agree, position by position, on area, bounding box and corner points give the same output. Arc length, the approximated polygon and the rotated rectangle's own centre, sides and angle play no part. |
| `TextRegionProperties.ApproximationIgnored` | main.go:110-112 | Two lists that differ only in arc length and approximated polygon give the same output. |
| `TextRegionProperties.EmittedHaveFourCorners` | main.go:114-124 | When every minimum-area rectangle has four corners, every emitted region has four points. |
| `TextRegionProperties.AreaBoundary` | main.go:106 | For a contour with a flat enough box, area exactly 700 is accepted and any area below 700 is rejected. |
| `TextRegionProperties.RatioBoundary` | main.go:120 | With width 100 and area at least 700, a bounding height of 90 is accepted and a height of 91 is rejected. |
| `TextRegionProperties.RotatedSizeNotConsulted` | main.go:114-117 | A rectangle standing on end is accepted because its axis-aligned box (100 wide, 10 high) is flat. Its own reported width 10 and height 100 are not consulted. |
| `TextRegionProperties.BlobKeptLineDropped` | main.go:100-125 | For a 200×40 horizontal blob and a 4×300 vertical line, only the blob's rectangle is emitted. The line's area is above the minimum, but its aspect ratio rejects it. |

## Left out

- `main` (main.go:14-62): argument check, file open, JPEG decoding and encoding, the Lanczos resize to width 1000, image reads and writes, and drawing the rectangles. All of this is I/O and library calls.
- `preprocess` (main.go:64-94): Sobel, Otsu threshold, dilate, erode and dilate are image-library operations whose semantics are not part of this model. Only their parameters and order are recorded, as constants in `Preprocess`. The same holds for the diagnostic image writes.
- Contour tracing, contour area, arc length, polygon approximation and the minimum-area rectangle (main.go:99-114) are library geometry with floating-point numerics. Their results are inputs, the fields of `MeasuredContour`.
- Floating point: the area is a `real`, and the aspect test is computed in exact arithmetic (see above). The model does not capture behaviour for coordinates beyond 2^50 or for negative box sizes, which the library never produces.
- Go's 64-bit `int` coordinate differences are unbounded integers here: image coordinates cannot overflow them.
- Releasing the image buffers (`Close`, `defer`, and the unreleased `dilation2` at main.go:86) is memory management, not behaviour.
