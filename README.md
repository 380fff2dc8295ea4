# LiDARDepth: a verified model of its image-processing core

LiDARDepth is an iOS app. It streams colour and LiDAR depth frames, captures a
photo on request, finds the brightest spot of the photo and lifts that spot to
a 3D point using the depth map and the camera intrinsics. Beside the app, the
repository holds several playgrounds and research scripts that scan or edit
plain pixel buffers: two stand-alone copies of the brightest-point scan, a
ray/box slab test, an occupancy grid built from a voxel cloud, a per-frame
maximum-luma scan, and two in-place RGBA edits that are both called `greenify`.

This project models those pieces in Dafny and proves what each one computes.

| file | module | models |
|---|---|---|
| bytes.dfy | `Bytes` | the `UInt8` byte type and a few facts about products and row-major indices |
| brightest_point.dfy | `BrightestPoint` | the brightest-point scan, shared by all three copies |
| call_sites.dfy | `LiveFrameCapture`, `BrightestPointPlayground` | the two stand-alone callers of the scan |
| depth_projection.dfy | `DepthProjection` | the blur-margin clamp, the depth-map index and the pinhole lift to 3D |
| camera_manager.dfy | `CameraManagement` | the `CameraManager` object and its capture flags, as a class and as a state machine |
| ray_box.dfy | `RayBox` | `rayBoxIntersection`, its declarative meaning, and a corrected slab test |
| occupancy_grid.dfy | `OccupancyGrid` | `createEmptyGrid` and `createOccupancyGrid` |
| illumination_index.dfy | `IlluminationIndex` | the start of `extractIlluminationIndex`: the table allocation and the per-frame maximum luma |
| shadow_greenify.dfy | `ShadowExtraction` | `greenify` of the shadow playground: red set to 255 inside a fixed region |
| green_shift.dfy | `GreenShift` | `greenify` of the pixel playground: green bytes halved or doubled |

Each imperative routine is a Dafny `method` that keeps the source's loops and
branches. It is proved against a specification function, and the properties
the source relies on are lemmas about that function:

- **The brightest-point scan.** `Scan` is the left fold of the loop body over
  the pixels in visiting order (x outer, y inner). `ScanIsExpected` shows it
  equals a declarative entry. That entry's maximum is the largest red byte.
  Its sums and count run over exactly the pixels tied at that maximum. When
  the maximum is 0, the count also includes the initial (0, 0) entry.
- **The ray test.** `RayBoxIntersection` returns `Reference`, a one-shot
  statement of what its early returns decide.
- **The greenify edits.** The two edits change an `array` in place. Each new
  buffer is stated as a function of the old one.

Floating-point quantities (`Float`, `Double`) are modelled as `real`.

## Model

| member | source | states |
|---|---|---|
| BrightestPoint.FindBrightestPoint | LiDARDepth/Model/CameraManager.swift:122-160 | the scan's result is the truncated mean `(Σx / k, Σy / k)` over the pixels whose red byte is the maximum. k is the number of tied pixels, plus one for the initial entry when the maximum is 0. The result lies in `[0, w-1] × [0, h-1]` |
| BrightestPoint.ScanColumn | LiDARDepth/Model/CameraManager.swift:142-156 | the inner loop over one column turns the locals left by the earlier columns into the locals after that column as well |
| BrightestPoint.Step | LiDARDepth/Model/CameraManager.swift:145-155 | one loop body: the new maximum is at least the old one and the pixel's red byte, and is one of them. A count of at least 1 stays so. The locals change only when the red byte reaches the maximum |
| BrightestPoint.Centroid | LiDARDepth/Model/CameraManager.swift:159-160 | for non-negative sums, each coordinate is the truncated quotient: the largest q with `q·count ≤ sum` |
| BrightestPoint.Scan | LiDARDepth/Model/CameraManager.swift:124-159 | `pointCounts` never drops below 1, so the final division is defined |
| BrightestPoint.MaxRed | LiDARDepth/Model/CameraManager.swift:125-146 | the maximum is at least 0, no red byte exceeds it, and it is 0 or the red byte of some pixel |
| BrightestPoint.TiedCount | LiDARDepth/Model/CameraManager.swift:124-155 | the divisor the declarative reading predicts is at least 1 |
| BrightestPoint.ScanIsExpected | LiDARDepth/Model/CameraManager.swift:123-157 | after any pixel sequence, `maxBrightness` is the largest red byte. `pointSums` and `pointCounts` cover exactly the pixels tied at it, with the initial (0, 0)/1 entry kept only when that maximum is 0 |
| BrightestPoint.ExpectedAfterBrighter | LiDARDepth/Model/CameraManager.swift:145-150 | a strictly brighter pixel resets the sums to its own coordinates and the count to 1 |
| BrightestPoint.ExpectedAfterTie | LiDARDepth/Model/CameraManager.swift:151-155 | a pixel equal to the maximum adds its x and y to the sums and 1 to the count |
| BrightestPoint.ExpectedAfterDarker | LiDARDepth/Model/CameraManager.swift:145-155 | a darker pixel changes nothing |
| BrightestPoint.AllTiedAtZero | LiDARDepth/Model/CameraManager.swift:123-125 | when the maximum is 0, every pixel is tied at it |
| BrightestPoint.CentroidBounded | LiDARDepth/Model/CameraManager.swift:159-160 | when every pixel lies in `[0, maxX] × [0, maxY]`, so does the truncated mean |
| BrightestPoint.BrightestCentroidMeaning | LiDARDepth/Model/CameraManager.swift:141-160 | the reported point is the mean over the tied pixels and lies inside the image. In an all-black image it is `(Σx / (w·h + 1), Σy / (w·h + 1))` over all pixels |
| BrightestPoint.OffsetInBounds | LiDARDepth/Model/CameraManager.swift:141-144 | the three components read at `y·bytesPerRow + x·bytesPerPixel` lie inside the buffer whenever the last pixel's do |
| BrightestPoint.SamplesInScanOrder | LiDARDepth/Model/CameraManager.swift:141-142 | the scan makes `w·h` steps and visits pixel (x, y) at step `x·h + y` |
| BrightestPoint.SampleAtStep | LiDARDepth/Model/CameraManager.swift:141-142 | step i visits pixel `(i / h, i % h)` |
| BrightestPoint.UniqueMaximum | LiDARDepth/Model/CameraManager.swift:145-160 | a non-black sample strictly brighter than all others is the reported point |
| BrightestPoint.SingleBrightestPixel | LiDARDepth/Model/CameraManager.swift:141-160 | an image with one non-black pixel strictly brighter than every other reports exactly that pixel |
| BrightestPoint.RedOnly | LiDARDepth/Model/CameraManager.swift:144-155 | two images with the same red bytes report the same point: green and blue are read but never used |
| LiveFrameCapture.GetBrightestPoint | image_processing/LiveFrameCapture/ProcessImages/ProcessImages/ViewController.swift:63-101 | returns a one-element array holding the scan's point, which lies inside the image |
| BrightestPointPlayground.GetBrightestPoint | image_processing/BrightestPoint/GetPixels.playground/Pages/GetPixels.xcplaygroundpage/Contents.swift:44-81 | `center` is the scan's point and lies inside the image |
| DepthProjection.Unblur | LiDARDepth/Model/CameraManager.swift:164 | `max(c - 30, 0)` is 0 or `c - 30`, never below `c - 30`, and 0 for `c ≤ 30` |
| DepthProjection.DepthIndex | LiDARDepth/Model/CameraManager.swift:164-170 | when the clamped column is inside a depth-map row, the row-major index `y·w + x` decodes back to the clamped row (`i / w`) and column (`i % w`) |
| DepthProjection.DepthIndexInside | LiDARDepth/Model/CameraManager.swift:164-170 | a clamped point inside a `w × h` depth map indexes below `w·h` |
| DepthProjection.ColumnOverflowWraps | LiDARDepth/Model/CameraManager.swift:164-170 | there is no upper clamp: one column past a row reads the same sample as the first column of the next row |
| DepthProjection.PinholeAxis | LiDARDepth/Model/CameraManager.swift:176-179 | forward-projecting a back-projected coordinate at the same non-zero depth gives it back |
| DepthProjection.Lift | LiDARDepth/Model/CameraManager.swift:172-183 | the lifted point has depth `sample·1000` and fourth component 1, and its x and y satisfy the pinhole equations `x·(fx/sx) = (px − cx/sx)·z` and `y·(fy/sy) = (py − cy/sy)·z` with the intrinsics divided by `scaleRes` |
| DepthProjection.LiftThenProject | LiDARDepth/Model/CameraManager.swift:170-183 | the lifted point has depth `sample·1000` and fourth component 1. For a non-zero sample, projecting it with the rescaled intrinsics gives back the clamped pixel |
| DepthProjection.LiftAtReferenceResolution | LiDARDepth/Model/CameraManager.swift:172-179 | dividing the intrinsics by `scaleRes` equals scaling the pixel up to the reference resolution: `x = (px·sx − cx)·d / fx`, and likewise for y |
| CameraManagement.Next | LiDARDepth/Model/CameraManager.swift:48-89 | one call: a capture request sets `waitingForCapture` and changes nothing else. A photo is shown and its call ends with waiting clear and processing set. `resumeStream` clears both flags. A stream frame changes nothing while a photo is processed and is otherwise shown with `dataAvailable` set, leaving both capture flags as they were. `dataAvailable` is never cleared and only a stream frame sets it. Only frames and photos change the data shown |
| CameraManagement.DataAvailableStays | LiDARDepth/Model/CameraManager.swift:48-89 | once `dataAvailable` is set, no sequence of calls clears it |
| CameraManagement.PhotoStaysWhileProcessing | LiDARDepth/Model/CameraManager.swift:73-89 | while a photo is being processed, stream frames and capture requests change neither the frame on show, nor `dataAvailable`, nor `processingCapturedResult` |
| CameraManagement.PhotoThenStream | LiDARDepth/Model/CameraManager.swift:59-89 | a photo followed by any stream frames stays on show, with `processingCapturedResult` set and `waitingForCapture` clear |
| CameraManagement.NoCaptureRequest | LiDARDepth/Model/CameraManager.swift:73-89 | stream frames never set `waitingForCapture` |
| CameraManagement.ResumeThenFrame | LiDARDepth/Model/CameraManager.swift:53-89 | after `resumeStream`, the next stream frame is shown and makes data available |
| CameraManagement.CameraManager.constructor | LiDARDepth/Model/CameraManager.swift:23-28 | all flags start false, and the brightest points and image size start at zero |
| CameraManagement.CameraManager.StartPhotoCapture | LiDARDepth/Model/CameraManager.swift:48-51 | sets `waitingForCapture`, and nothing else changes |
| CameraManagement.CameraManager.ResumeStream | LiDARDepth/Model/CameraManager.swift:53-57 | clears `processingCapturedResult` and `waitingForCapture` |
| CameraManagement.CameraManager.GetBrightestPoint | LiDARDepth/Model/CameraManager.swift:91-183 | `imageSize` is the scanned buffer's size. `brightestPoint` is the scan's point and lies inside it. `brightestPoint3D` is the lift of the clamped point, with fourth component 1 |
| CameraManagement.CameraManager.OnNewPhotoData | LiDARDepth/Model/CameraManager.swift:59-71 | shows the photo, computes its brightest point in 2D and 3D, and ends with waiting false and processing true |
| CameraManagement.CameraManager.OnNewData | LiDARDepth/Model/CameraManager.swift:73-89 | replaces the frame and sets `dataAvailable` unless a photo is being processed, when nothing changes. It never clears `dataAvailable` |
| RayBox.RayBoxIntersection | rayboxintersection.swift:1-48 | the early-return code computes `Reference`. That is a hit exactly when every tested axis is entered no later than every other tested axis is left, with the latest tested entry as `tmin`. Every miss is exactly `(false, -1)`. The arguments may have more than three components; only the first three are read |
| RayBox.EntryBeforeExit | rayboxintersection.swift:5-11 | with `vmin ≤ vmax`, each axis's entry parameter (bounds swapped for a negative direction) is at most its exit parameter |
| RayBox.HitInterval | rayboxintersection.swift:17-44 | on a hit over an ordered box, `tmin` lies between the entry and the exit of every tested axis |
| RayBox.AllTestedMeaning | rayboxintersection.swift:13-47 | with non-negative directions on axes 1 and 2, a hit happens exactly when some point of the line is in the box. `tmin` is then the first such parameter |
| RayBox.OnlyAxisZero | rayboxintersection.swift:5-47 | axis 0 alone never produces a miss: with both later directions negative, the result is always a hit at axis 0's entry |
| RayBox.SkippedAxisIgnored | rayboxintersection.swift:13-30 | on an axis with a negative direction, the result does not depend on the origin or the box bounds |
| RayBox.CentreExample | rayboxintersection.swift:51-56 | the commented example gives `(true, -1)`, whose `tmin` equals the miss value |
| RayBox.BehindOriginExample | rayboxintersection.swift:17-47 | there is no sign check on t: a box wholly behind the origin is a hit with `tmin = -11` |
| RayBox.SkippedAxisAccepts | rayboxintersection.swift:13-28 | a ray with a negative y direction is reported to hit a box that no point of its line meets |
| RayBox.SymmetricSlabExact | rayboxintersection.swift:1-48 | the slab test that narrows the interval on every axis reports a hit exactly when the line meets the box, and then returns its first parameter |
| RayBox.RayBoxIntersectionSymmetric | rayboxintersection.swift:13-45 | the function with the sign test moved inside each axis computes that symmetric slab test |
| RayBox.AgreesWhenAllTested | rayboxintersection.swift:13-30 | where the directions of axes 1 and 2 are non-negative, the function as written agrees with the symmetric test |
| OccupancyGrid.CreateEmptyGrid | RobustCarvingFrame/RGBD/occupancygrid.swift:6-8 | `width` planes of `height` rows of `depth` entries, all 0 |
| OccupancyGrid.Occupancy | RobustCarvingFrame/RGBD/occupancygrid.swift:11-32 | the output is shaped by `pointCloud.count`, `pointCloud[0].count` and `pointCloud[0][0].count`. A voxel is 1 exactly where the point cloud holds 1, and 0 everywhere else |
| OccupancyGrid.CreateOccupancyGrid | RobustCarvingFrame/RGBD/occupancygrid.swift:11-32 | the triple loop over an empty grid, setting occupied voxels to 1, builds that grid |
| OccupancyGrid.BinaryIsFixed | RobustCarvingFrame/RGBD/occupancygrid.swift:20-31 | a rectangular grid of 0s and 1s is its own occupancy grid |
| OccupancyGrid.OccupancyIdempotent | RobustCarvingFrame/RGBD/occupancygrid.swift:20-31 | applying the function to its own output changes nothing |
| OccupancyGrid.DiagonalExample | RobustCarvingFrame/RGBD/occupancygrid.swift:33-37 | the diagonal example comes back unchanged, as its comment says |
| OccupancyGrid.OtherValuesCleared | RobustCarvingFrame/RGBD/occupancygrid.swift:23-25 | at every voxel of the point cloud, a value other than 1 (0, 2, −1, …) is 0 in the grid |
| OccupancyGrid.OtherValueExample | RobustCarvingFrame/RGBD/occupancygrid.swift:20-31 | for instance `[[[2, 1]]]` becomes `[[[0, 1]]]` |
| IlluminationIndex.InitialIlluminationIndex | RobustCarvingFrame/RGBD/illumination_index.swift:2-3 | one `[0, 0]` row per frame |
| IlluminationIndex.Luma | RobustCarvingFrame/RGBD/illumination_index.swift:28 | the BT.709 intensity of three bytes lies in `[0, 255]` |
| IlluminationIndex.FrameMaxLuma | RobustCarvingFrame/RGBD/illumination_index.swift:20-31 | after the loop, `maxValue` is the running maximum over all `w·h` pixels in buffer order, starting from 0 |
| IlluminationIndex.MaxLumaIsMaximum | RobustCarvingFrame/RGBD/illumination_index.swift:20-31 | that running maximum is `max(0, largest luma)`: in `[0, 255]`, at least every pixel's luma, and 0 or some pixel's luma |
| IlluminationIndex.FrameMaximumUnique | RobustCarvingFrame/RGBD/illumination_index.swift:20-31 | there is only one value with those properties |
| IlluminationIndex.MaxLumaGrows | RobustCarvingFrame/RGBD/illumination_index.swift:29 | `maxValue` never decreases during the scan |
| IlluminationIndex.ScanPosition | RobustCarvingFrame/RGBD/illumination_index.swift:21-23 | for a row `y < h`, row `y` starts at `y·w ≥ 0` and ends at `(y + 1)·w ≤ w·h`. For a column `x < w`, pixel `y·w + x` is below `w·h` and its four bytes up to `4(y·w + x) + 3` stay below `4·w·h` |
| IlluminationIndex.ScanStep | RobustCarvingFrame/RGBD/illumination_index.swift:23-29 | one loop body folds the luma read at byte `offset·4` into the running maximum |
| IlluminationIndex.BlackFrame | RobustCarvingFrame/RGBD/illumination_index.swift:28-29 | a frame whose red, green and blue bytes are all 0 has maximum 0, whatever its alpha bytes, so an opaque black (0, 0, 0, 255) frame is covered |
| IlluminationIndex.WhitePixel | RobustCarvingFrame/RGBD/illumination_index.swift:28-29 | a frame holding a (255, 255, 255) pixel has maximum 255, since the weights add up to 1 |
| IlluminationIndex.AlphaIgnored | RobustCarvingFrame/RGBD/illumination_index.swift:27-28 | frames that differ only in alpha have the same maximum |
| ShadowExtraction.ShadowGreenify | image_processing/ExtractShadow/GetPixels.playground/Contents.swift:132-153 | the ROI loop turns the buffer into `Shadowed` of the old one: a red byte of a region pixel becomes 255 when its green byte is below 10, and every other byte is kept |
| ShadowExtraction.ByteIndexDecodes | image_processing/ExtractShadow/GetPixels.playground/Contents.swift:136 | `y·bytesPerRow + x·4` is the red byte of pixel (x, y) |
| ShadowExtraction.RoiInBuffer | image_processing/ExtractShadow/GetPixels.playground/Contents.swift:103-136 | with width ≥ 2800 and height ≥ 2450, every pixel of the region lies inside the `4·w·h`-byte buffer |
| ShadowExtraction.ShadowChangesOnlyRoiRed | image_processing/ExtractShadow/GetPixels.playground/Contents.swift:134-139 | a byte that changes is a red byte of the region whose green byte is below 10, and it becomes 255 |
| ShadowExtraction.ShadowPixel | image_processing/ExtractShadow/GetPixels.playground/Contents.swift:134-139 | at a region pixel, red becomes 255 exactly when green is below 10 and is kept otherwise. Green, blue and alpha are kept |
| ShadowExtraction.OutsideRoiUnchanged | image_processing/ExtractShadow/GetPixels.playground/Contents.swift:134-143 | a pixel outside the region keeps all four bytes |
| ShadowExtraction.ShadowIdempotent | image_processing/ExtractShadow/GetPixels.playground/Contents.swift:137-138 | applying the edit twice equals applying it once |
| GreenShift.GreenShiftPass | image_processing/GetPixels.playground/Contents.swift:33-79 | over a buffer of `4·w·h` bytes, the pass turns the buffer into `GreenShifted` of the old one |
| GreenShift.ShiftGreens | image_processing/GetPixels.playground/Contents.swift:65-79 | the `while` loop, four bytes at a time, shifts every green byte and nothing else |
| GreenShift.ShiftGreenByte | image_processing/GetPixels.playground/Contents.swift:68-72 | the loop body changes the green byte at its index into `ShiftGreen` of its old value and leaves every other byte as it was |
| GreenShift.ShiftRight | image_processing/GetPixels.playground/Contents.swift:69 | `UInt8 >> 1`: twice the result is the byte or one less |
| GreenShift.ShiftLeft | image_processing/GetPixels.playground/Contents.swift:71 | `UInt8 <<= 1`: twice the byte below 128, twice the byte less 256 from 128 on, and always even |
| GreenShift.ShiftDark | image_processing/GetPixels.playground/Contents.swift:68-69 | a green byte below 20 is halved (`g >> 1`), ends below 10, and a non-zero one gets darker |
| GreenShift.ShiftBright | image_processing/GetPixels.playground/Contents.swift:70-71 | any other green byte becomes `(2g) mod 256`: always even, brighter below 128 and darker from 128 on |
| GreenShift.OnlyGreenChanges | image_processing/GetPixels.playground/Contents.swift:67-79 | red, blue and alpha bytes are left as they were |
| GreenShift.GreenDependsOnGreen | image_processing/GetPixels.playground/Contents.swift:67-79 | each new green byte depends only on the old green byte at the same index |
| GreenShift.ShiftLosesTopBit | image_processing/GetPixels.playground/Contents.swift:70-71 | the pass is not invertible: greens 128 and 0 both land on 0, and 255 and 127 both land on 254 |

## Left out

- The SwiftUI views (LiDARDepth/Views/ContentView.swift) are not modelled: they only lay out and present the data.
- The framework image calls, meaning the greyscale conversion, the Gaussian blur, `CIContext`/`CGContext` drawing and `createCGImage`. The scans start from the byte buffer those calls produce. The brightest-point scan takes it as an `Image`, the maximum-luma scan as a `seq<Byte>`, and the two in-place edits as a byte `array`.
- The `fatalError` guards and the `if let`/`guard` early returns around the buffers are not modelled. The model assumes the buffer exists.
- Decoding the `Float16` depth samples is not modelled: the depth map arrives as decoded `real` samples. The ×1000 factor is kept, as `DepthScale`.
- Floating point: `Float`, `Double` and `CGFloat` arithmetic is exact `real` arithmetic. Rounding, infinities and NaN are not modelled. A zero ray-direction component (which gives ±inf or NaN in Swift) is excluded by `RayBox.WellFormed`, and zero focal lengths, texture sizes or reference dimensions by `DepthProjection.Projectable`. With the `.zero` default reference size, Swift's `scaleRes` is 0 and `cx / scaleRes` is inf or NaN.
- `Int` overflow is not modelled: coordinate sums and byte offsets are unbounded integers.
- Concurrency: the `DispatchQueue.main.async` block of `onNewData` runs as one synchronous step.
- The capture plumbing is not modelled: the `CameraController` calls (`capturePhoto`, `startStream`), the orientation subscription and the `isFilteringDepth` forwarding.
- CameraManagement.CameraManager.constructor: the initial empty `CameraCapturedData()` is modelled as `None`. Its optional fields are nil. Its `cameraIntrinsics` is the zero `matrix_float3x3()` and its `cameraReferenceDimensions` is `.zero`; `None` does not keep those two defaults. `GetBrightestPoint` therefore requires `capturedData` to be `Some`. On the empty data, Swift traps at the first force-unwrap, `ciimage!` in the `createCGImage` call.
- CameraManagement.CameraManager.GetBrightestPoint requires a depth read inside the depth map (`Ready`). Swift would read out of bounds there, since the index is not clamped from above.
- CameraManagement.CameraManager.OnNewData and OnNewPhotoData copy the seven fields of `CameraCapturedData` one by one. The model replaces the whole `CapturedData` value at once. The views that hold a reference to it in the source are not modelled, so copying field by field and replacing the whole value cannot be told apart here.
- The ellipse that the BrightestPoint playground draws around the centre onto a copy of the image is not modelled. `BrightestPointPlayground.GetBrightestPoint` returns the centre instead of the drawn image.
- The `print` calls of the scans are not modelled.
- `writeImage` and the rest of the file I/O of the shadow playground are not modelled.
- `extractIlluminationIndex` is modelled only up to the scan of each frame: the allocation and the maximum-luma loop for one frame. The file ends at line 34 with no return or store, so the loop over `imageStack.enumerated()` and where its results go are not modelled.
- IlluminationIndex.FrameMaxLuma: its `ensures` ties `maxValue` to `MaxLuma`. That this is the frame's largest luma is stated by the lemma `IlluminationIndex.MaxLumaIsMaximum`, not by the method itself.
- ShadowExtraction.ShadowGreenify requires width ≥ 2800 and height ≥ 2450. With any narrower or shorter image, some region writes fall outside the buffer or wrap into later rows, which Swift does not check.
- GreenShift: the `UInt8` shifts are modelled arithmetically, `>> 1` as `g / 2` and `<<= 1` as `(2g) mod 256`.
- RayBox.AllTestedMeaning, RayBox.HitInterval and RayBox.SymmetricSlabExact assume an ordered box (`vmin ≤ vmax` on every axis), which the source never checks. `RayBox.RayBoxIntersection` itself has no such precondition.
- Commented-out code is not modelled: the alternative `else` branch and the second `while` loop of the shadow playground, the three shifts of the pixel playground, and the example call of the ray test (only its inputs and expected output are used, in `RayBox.CentreExample`).
- Where the code and its surrounding description differ, the model follows the code. The ray test treats the ray as a whole line, so boxes behind the origin are hits (`RayBox.BehindOriginExample`). In an all-black image, the scan averages every pixel together with the initial (0, 0) entry (`BrightestPoint.BrightestCentroidMeaning`).

## Findings

| source | as written | input that shows it | evidently intended | confidence | as-written member | corrected member |
|---|---|---|---|---|---|---|
| rayboxintersection.swift:13-45 | an axis whose direction component is negative is skipped (`if direction[1] >= 0`, `if direction[2] >= 0`), so that axis never narrows the interval and never rejects | origin (0, 0, 0), direction (1, −1, 1), box [1, 2]³: reported as `(true, 1)`, but the line is in the y slab only for t in [−2, −1] and never meets the box | swap the slab bounds for a negative direction, as axis 0 does, so every axis narrows the interval: a hit exactly when the line meets the box | high (not executed) | RayBox.SkippedAxisAccepts | RayBox.SymmetricSlabExact |
