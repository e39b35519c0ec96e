# img-normalizer: the aspect-ratio normalisation engine in Dafny

img-normalizer brings each JPEG, PNG or WEBP image to the closest of a fixed set of "common"
aspect ratios by downscaling or centre-cropping it within a pixel tolerance. This project
models the engine at its centre and proves what it promises:

- **target dimensions** (`Geometry`): the largest size with a given ratio that fits inside
  the original, with float64 ratios truncated to whole pixels;
- **best-ratio selection** (`Detect`): a scan over the ordered catalog 1:1, 4:3, 4:5, 3:2,
  16:9, 21:9, 9:16. An entry is eligible when both pixel losses are within the tolerance.
  The eligible entry with the smallest total loss wins, the earlier entry wins a tie, and the
  sentinel 0:0 means no entry is eligible;
- **scale-or-crop decision** (`Adjust`): scale when both losses are within the tolerance,
  crop when exactly one is, and otherwise return the image unchanged;
- **nearest-neighbour scaling** (`Scale`) and **centred cropping** (`Crop`) on pixel grids;
- **the alternative adjuster** (`AltAdjust`): `AdjustToAspectRatio` from
  internal/imageproc/adjust.go, with its ratio-based size rule and its ratio-distance test;
- **the per-file pipeline's decisions** (`Process`, with string helpers in `Paths`): the
  extension filter, the decode outcome, the sentinel skip, the target computation, the
  adjustment, and the output name `<base>_<W>x<H><ext>`.

Images are immutable `Grid`s of RGBA pixels whose origin is (0, 0) (`Raster`). Go's
truncating float64 arithmetic on non-negative sizes becomes exact floor division on
naturals (`Arith`), which can differ from the float64 result by a pixel (see "## Left out"). `shouldScale`'s ratio comparison is carried out over `real`.
Reading and writing files is not modelled. `ProcessImage` takes the decoded image, or its
absence, as a parameter and returns an `Outcome` that records which branch the pipeline took
and what it would write.

`main.go` holds root-package copies of `findBestAspectRatio`, `scaleImage`, `cropImage` and
`processImage`, with the tolerance fixed at 100. These are identical to the package versions,
so each is modelled once. `processImage` is `Process.ProcessImage` with
`Process.RootTolerance`. The package's `ProcessImage` calls `CalculateTargetDimensions` and
`AdjustImageToAspectRatio`, but neither is defined in main.go or in
internal/imageproc/{adjust,crop,detect,process,scale}.go. They are modelled from `main.go`'s lower-case copies `calculateTargetDimensions` and
`adjustImageToAspectRatio`.

Further facts about the code that the model keeps:

- the catalog has seven entries, including 4:5;
- the best ratio is chosen by integer pixel losses against an integer tolerance;
- nothing short-circuits an image already in the chosen ratio. In exact arithmetic its target
  is its own size (`Geometry.ExactRatioKept`), and resampling to its own size changes nothing
  (`Scale.ScaleToOwnSizeIsIdentity`). With float64 ratios the target can come out a pixel
  smaller, and the image is then really resampled;
- with an odd difference, a centred crop leaves the extra pixel on the right or bottom;
- sizes are truncated toward zero.

## Model

| member | source | states |
|---|---|---|
| Geometry.CalculateTargetDimensions | main.go:49-56 | The target never exceeds the original. Each side is the largest whole number whose ratio to the other original side does not exceed aw:ah (or ah:aw), capped at the original side. |
| Geometry.OneSideKept | main.go:52-53 | At least one side of the target equals the original side: if the width is cut, the height is not. |
| Geometry.ExactRatioKept | main.go:52-53 | In exact arithmetic, when W·ah = H·aw, the target is exactly (W, H). |
| Geometry.TargetDependsOnlyOnRatioValue | main.go:50 | Only the value aw/ah matters: k·aw : k·ah gives the same target. |
| Geometry.TargetTestVectors | internal/imageproc/imageproc_test.go:19-41 | The eight cases of the target-dimension test, each within the one-pixel slack the test allows (e.g. 1000×500 at 16:9 gives 888×500, 1280×853 at 16:9 gives 1280×720). |
| Detect.CatalogShape | internal/imageproc/detect.go:6-11 | The catalog has seven distinct entries with positive terms. |
| Detect.Scan | internal/imageproc/detect.go:13-29 | After k rounds of the loop, nothing is chosen exactly when none of the first k entries is eligible. Otherwise the chosen index is the reference winner among those k. |
| Detect.BestIndex | internal/imageproc/detect.go:13-31 | The winning index is absent exactly when no entry is eligible. When present, it meets the reference definition. |
| Detect.FindBestAspectRatio | internal/imageproc/detect.go:5-32 | The result is 0:0 exactly when no catalog entry is eligible. Otherwise it is a catalog entry with positive terms whose two pixel losses are both within the tolerance. |
| Detect.IsBestUnique | internal/imageproc/detect.go:22-27 | At most one entry meets the reference definition: eligible, minimal total loss, and strictly below every earlier eligible entry. |
| Detect.FindBestMatchesReference | internal/imageproc/detect.go:16-31 | The search returns entry i if and only if i is eligible, no eligible entry has a smaller total loss, and every earlier eligible entry has a larger one (ties go to the earliest). |
| Detect.NegativeToleranceNoMatch | internal/imageproc/detect.go:19-22 | A negative tolerance always gives 0:0, since losses are never negative. |
| Detect.ExactFitWinsEarliest | internal/imageproc/detect.go:22-27 | An image exactly in the ratio of entry i, and in that of no earlier entry, gets entry i under any non-negative tolerance. A zero loss ties only with later exact fits, and the strict comparison keeps the earliest. |
| Detect.AssessedExact1920x1080 | internal/imageproc/imageproc_test.go:168 | For 1920×1080 at tolerance 1, only 16:9 is eligible. |
| Detect.FindBestExact1920x1080 | internal/imageproc/imageproc_test.go:168 | 1920×1080 at tolerance 1 gives 16:9. |
| Detect.AssessedSlightlyOff1280x853 | internal/imageproc/imageproc_test.go:171 | For 1280×853 at tolerance 100, only 3:2 is eligible. |
| Detect.FindBestSlightlyOff1280x853 | internal/imageproc/imageproc_test.go:171 | 1280×853 at tolerance 100 gives 3:2. |
| Detect.AssessedSlightlyOff1271x799 | internal/imageproc/imageproc_test.go:172 | For 1271×799 at tolerance 100, 3:2 (loss 73) and 16:9 (loss 85) are the only eligible entries. |
| Detect.FindBestSlightlyOff1271x799 | internal/imageproc/imageproc_test.go:172 | 1271×799 at tolerance 100 gives 3:2. |
| Detect.AssessedTooTight952x932 | internal/imageproc/imageproc_test.go:175 | For 952×932 at tolerance 5, no entry is eligible. |
| Detect.FindBestTooTight952x932 | internal/imageproc/imageproc_test.go:175 | 952×932 at tolerance 5 gives the sentinel 0:0. |
| Detect.AssessedNear4x3 | internal/imageproc/imageproc_test.go:178 | For 1023×768 at tolerance 20, only 4:3 is eligible. |
| Detect.FindBestNear4x3 | internal/imageproc/imageproc_test.go:178 | 1023×768 at tolerance 20 gives 4:3. |
| Detect.AssessedNearlySquare | internal/imageproc/imageproc_test.go:179 | For 1000×1001 at tolerance 5, only 1:1 is eligible. |
| Detect.FindBestNearlySquare | internal/imageproc/imageproc_test.go:179 | 1000×1001 at tolerance 5 gives 1:1. |
| Scale.SourceIndex | internal/imageproc/scale.go:9-15 | The sampled source coordinate lies inside a non-empty source, even when enlarging. |
| Scale.ScaleImage | internal/imageproc/scale.go:5-22 | The result is exactly tW × tH. Pixel (x, y) is source pixel (⌊x·W/tW⌋, ⌊y·H/tH⌋), unchanged. An empty source yields transparent pixels, as an RGBA source does out of bounds. |
| Scale.SourceIndexMonotone | internal/imageproc/scale.go:14-15 | The sampled column and row never decrease as x and y increase. |
| Scale.ScaledPixelsComeFromSource | internal/imageproc/scale.go:14-17 | Every output pixel of a non-empty source is some source pixel. |
| Scale.ScaleToOwnSizeIsIdentity | internal/imageproc/scale.go:9-17 | Scaling an image to its own size gives the same image. |
| Scale.WholeFactorSamplesEveryKth | internal/imageproc/scale.go:9-15 | Shrinking by a whole factor k samples every k-th source pixel. |
| Arith.QuoTruncatesTowardZero | internal/imageproc/crop.go:10-11 | Go's integer division rounds a non-negative quotient down and a negative one up, and negating the dividend negates the quotient. |
| Crop.Span | internal/imageproc/crop.go:7-13 | On one axis, the crop starts at (size − t)/2 and keeps t pixels when t ≤ size. When t exceeds the size, it keeps the whole axis (the sub-image is clipped to the bounds). |
| Crop.Window | internal/imageproc/crop.go:13-16 | The window has the requested size, and pixel (x, y) is source pixel (x0 + x, y0 + y). |
| Crop.CropImage | internal/imageproc/crop.go:5-17 | The result is never larger than the source. With 1 ≤ target ≤ source it is exactly the target size, and pixel (x, y) is source pixel ((W − tW)/2 + x, (H − tH)/2 + y). An axis that exceeds the source is clipped, and a zero target gives the empty image. |
| Crop.CropMargins | internal/imageproc/crop.go:10-13 | The left margin ≤ the right margin ≤ the left margin + 1, so an odd difference leaves the extra pixel on the right or bottom. |
| Crop.CropToOwnSizeIsIdentity | internal/imageproc/crop.go:7-13 | Cropping an image to its own size gives the same image. |
| Crop.CropOffsetExamples | internal/imageproc/crop.go:10-11 | 800×600 to 400×300 starts at (200, 150). 801 wide also starts at 200. 1280×853 to 1280×720 starts at (0, 66). |
| Adjust.Apply | main.go:109-121 | A scale gives exactly the requested size, a crop is never larger than the source, and leaving returns the source itself. |
| Adjust.ChooseAdjustment | main.go:104-121 | Scale if and only if both losses are ≤ tolerance. Crop if and only if exactly one is. Leave if and only if both exceed it. |
| Adjust.AdjustImageToAspectRatio | main.go:100-122 | Both losses within tolerance: the nearest-neighbour resample to exactly tW × tH. Exactly one: the centred crop. Neither: the input image itself. |
| Adjust.AdjustCropsCentredWindow | main.go:114-118 | When the adjuster crops to a target inside the source, the result is exactly tW × tH, and pixel (x, y) is source pixel ((W − tW)/2 + x, (H − tH)/2 + y). |
| Adjust.CatalogTargetNeverLeft | main.go:109-121 | For a target computed from a positive ratio and a non-negative tolerance, the adjuster never leaves the image alone. |
| Adjust.ScaleCropBoundaryExamples | main.go:109-118 | Losses 50/150 at tolerance 100 crop, 50/50 scale, and 150/150 leave the image alone. |
| AltAdjust.CalculateAdjustedDimensions | internal/imageproc/adjust.go:30-43 | An image wider than tW:tH (W·tH > H·tW) keeps its height, and its width becomes the largest width within the ratio. Otherwise it keeps its width, and its height is cut the same way. With positive target terms, an image with no width or no height comes out 0 × 0. |
| AltAdjust.ZeroTargetTerm | internal/imageproc/adjust.go:33-41 | A zero target height (an infinite target ratio) keeps the width and gives height 0. A zero target width (a zero target ratio) keeps the height and gives width 0. |
| AltAdjust.AdjustedWithinOriginal | internal/imageproc/adjust.go:17-20 | The adjusted size never exceeds the original, so the `scaleDown` guard never fires. |
| AltAdjust.AdjustedDependsOnlyOnRatioValue | internal/imageproc/adjust.go:32-33 | k·tW : k·tH gives the same adjusted size as tW:tH. |
| AltAdjust.ScaleDown | internal/imageproc/adjust.go:46-48 | The result is the componentwise minimum of the adjusted and the original size. |
| AltAdjust.ScaleDownWithinBoundsIsIdentity | internal/imageproc/adjust.go:46-48 | A size already within bounds is unchanged. |
| AltAdjust.RatioGapCrossMultiplied | internal/imageproc/adjust.go:51-54 | abs(W/H − aW/aH) ≤ t holds exactly when abs(W·aH − aW·H) ≤ t·H·aH. |
| AltAdjust.ShouldScale | internal/imageproc/adjust.go:50-55 | With positive heights, the test passes exactly when the cross-multiplied ratio gap is within the tolerance (equivalently, abs(W/H − aW/aH) ≤ tolerance). With a zero height it fails. |
| AltAdjust.SameRatioScalesIffToleranceNonNegative | internal/imageproc/adjust.go:50-55 | Two sizes in the same ratio pass exactly when the tolerance is non-negative. |
| AltAdjust.ShouldScaleMonotoneInTolerance | internal/imageproc/adjust.go:54 | A larger tolerance accepts everything a smaller one does. |
| AltAdjust.PlanAdjustToAspectRatio | internal/imageproc/adjust.go:10-27 | The adjuster always scales or crops, never leaves the image alone. It uses the adjusted size, which is within the original, and it scales exactly when `shouldScale` holds. |
| AltAdjust.AdjustToAspectRatio | internal/imageproc/adjust.go:10-27 | The result is never larger than the source. It has exactly the adjusted size whenever that size is non-degenerate, and an image with no width or no height comes out empty. |
| Paths.DotIndex | internal/imageproc/process.go:23 | The backward scan that `filepath.Ext` performs finds the last '.' with no '.' or '/' after it, or reports none when every '.' is followed by a '/'. |
| Paths.Ext | internal/imageproc/process.go:23 | The extension is a suffix of the path that starts with '.' and has no later '.' or '/'. It is empty only when every '.' in the path is followed by a '/'. |
| Paths.ExtAfterDot | internal/imageproc/process.go:23 | A path ending in '.' plus a tail with no '.' or '/' has exactly that extension. |
| Paths.ExtAfterSlash | internal/imageproc/process.go:23 | A path whose last element has no '.' has no extension. |
| Paths.Base | internal/imageproc/process.go:55 | The base is never empty. It is the last element of a path that does not end in '/'. |
| Paths.ToLower | internal/imageproc/process.go:23 | Lower-casing keeps the length and leaves no upper-case ASCII letter. Each upper-case letter becomes the lower-case letter 32 code points above it, and every other character is kept. |
| Paths.ToLowerIdempotent | internal/imageproc/process.go:23 | Lower-casing twice is the same as lower-casing once. |
| Paths.ToLowerKeepsLowerText | internal/imageproc/process.go:23 | Text with no upper-case letter is its own lower case, so a lower-case extension is compared as written. |
| Paths.TrimSuffix | internal/imageproc/process.go:56 | A present suffix is removed exactly. Otherwise the string is unchanged. |
| Paths.NatToString | internal/imageproc/process.go:57 | `%d` prints at least one digit and no leading zero. |
| Paths.ParseNatToString | internal/imageproc/process.go:57 | Reading a printed number back gives the number. |
| Process.FormatOf | internal/imageproc/process.go:26-36 | Exactly .jpg, .jpeg, .png and .webp select a decoder, and .jpg/.jpeg select JPEG. |
| Process.OutputFileName | internal/imageproc/process.go:55-57 | The name ends with `_<W>x<H><ext>`, and reading it back recovers the file's base name with `ext` trimmed off and the target size. |
| Process.ProcessImage | internal/imageproc/process.go:23-58 | Skipped exactly when the lower-cased extension is not one of the four. Decode failure exactly when supported but undecoded. No output exactly when the best ratio is 0:0. Otherwise it writes the adjusted image at the target size of the chosen catalog ratio, under `<base>_<W>x<H><ext>`. |
| Process.ProcessAlwaysScales | internal/imageproc/process.go:46-53 | When something is written, the adjuster took the scale branch. Its crop and leave branches are unreachable from the pipeline. |
| Process.PathExt | internal/imageproc/process.go:23 | `<dir>/<stem><ext>` has extension `<ext>`. |
| Process.PathBase | internal/imageproc/process.go:55 | `<dir>/<stem><ext>` with a '/'-free stem has base `<stem><ext>`. |
| Process.NameForLowerCaseExtension | internal/imageproc/process.go:55-57 | With a lower-case extension, the output name is `<stem>_<W>x<H><ext>`. |
| Process.NameForOtherCaseExtension | internal/imageproc/process.go:55-57 | With an extension that has an upper-case letter, nothing is trimmed, and the name is `<stem><ext>_<W>x<H><lower-cased ext>` (e.g. a.JPG becomes a.JPG_WxH.jpg). |
| Process.Photo1280x853 | main.go:154-169 | At the root tolerance of 100, a supported 1280×853 image is matched to 3:2 and resampled to 1279×853. |
| Process.LowerCasePhotoWritten | main.go:154-169 | That photo, `<dir>/<stem><ext>` with a lower-case extension, is written as `<stem>_1279x853<ext>`. |
| Process.OtherCasePhotoWritten | main.go:134-169 | With an upper-case extension, it is written as `<stem><ext>_1279x853<lower-cased ext>`. |
| Process.SkippedExtensions | internal/imageproc/process.go:23-36 | notes.txt, a.jpg/readme and archive.png.gz are skipped as unsupported. IMG.WEBP is not. |
| Process.NothingWrittenWithoutRatio | internal/imageproc/process.go:46-50 | A 952×932 image at tolerance 5 matches no ratio, and nothing is written. |

## Left out

- Opening, decoding, creating and encoding files (JPEG, PNG and WEBP codecs), directory walking,
  `os.MkdirAll`, and flag parsing in cmd/img-normalizer/main.go and internal/imageproc/utils.go
  are I/O over libraries outside the model. The decoded image is a parameter of
  `Process.ProcessImage`. The error branches of `os.Open` (internal/imageproc/process.go:16-20),
  `os.Create` (internal/imageproc/process.go:60-64) and the encoders are not represented. The
  open runs before the extension check, so `Process.ProcessImage`'s outcomes describe a file
  that opened, and a written outcome is what would be written if creating the file succeeds.
- `CalculateTargetDimensions` and `AdjustImageToAspectRatio`, called by the package's
  `ProcessImage`, are not defined in main.go or in internal/imageproc/{adjust,crop,detect,process,scale}.go. They are assumed to be
  identical to `main.go`'s `calculateTargetDimensions` and `adjustImageToAspectRatio`.
- `filepath.Join(destDir, newFileName)` is left out. The model produces the file name, not
  the full output path.
- internal/imageproc/log.go (CSV serialisation of log entries) and
  internal/imageproc/transform.go (rotate and flip placeholders that return their input) are
  not part of this model.
- Console output (`fmt.Println`/`fmt.Printf`) is left out.
- Floating point: float64 ratios and truncating conversions are modelled as exact floor
  division on naturals. A rounded float64 ratio can truncate to one pixel less than the exact
  quotient: 21.0/9.0 rounds up to 2.3333333333333335, so 140/(21/9) is 59.999… and truncates
  to 59 where the model gives 60. Such a pixel can change which entries are eligible, the
  chosen ratio and the output size. 140×70 at tolerance 10 gets 21:9 in the model (height
  loss 10) but the 0:0 sentinel in float64 (loss 11). 147×63 at 21:9 gets the target 147×63
  in the model but 147×62 in float64, so at tolerance 100 it is resampled to 147×62 rather
  than kept at its own size. The figures for float64 are worked out by hand in IEEE double
  arithmetic. The model's results, and the lemmas about them, are facts of exact
  arithmetic. NaN and infinity are not modelled.
- Geometry.CalculateTargetDimensions: requires a ratio with positive terms. Every ratio the
  code passes is a catalog entry. The only other ratio in the code, the 0:0 sentinel, is
  never passed, and it would give a NaN ratio whose `int()` conversion has no defined
  value. Ratios with exactly one zero term are not modelled.
- AltAdjust.CalculateAdjustedDimensions: requires a positive target width, or a positive
  target height together with a positive original width. The cases left out are exactly
  those where a 0/0 float64 quotient is NaN and reaches `int()`, which has no defined value.
  A zero target height gives (W, 0) and a zero target width gives (0, H)
  (`AltAdjust.ZeroTargetTerm`). No call site in the source passes a zero term.
- AltAdjust.AdjustToAspectRatio: has the same requirement, for the same reason. Its tolerance
  is an exact real, so a NaN tolerance (which would always crop) is not modelled.
- Go `image` semantics: images have origin (0, 0). A non-zero `Bounds().Min`, the `color.Model`
  conversion that `image.NewRGBA` applies on `Set`, the out-of-bounds colour of non-RGBA
  sources (a JPEG decodes to YCbCr, whose out-of-bounds pixel is opaque, not
  transparent), and the sharing of pixel memory between
  a `SubImage` and its parent are not modelled. Grids are immutable, so "the source is never
  written" holds by construction.
- Negative target sizes (possible only from a caller passing negative ints) are not
  modelled: sizes are naturals.
- `strings.ToLower` is modelled on ASCII letters only. Unicode case mapping is left out.
- Paths are Unix paths: '/' is the only separator. On Windows, `filepath.Ext` also stops at
  `\` and `filepath.Base` also strips a volume name. Neither is modelled.
