# CameraXApp core, modelled in Dafny

CameraXApp is an Android camera and QR-scanner app. This project models its four pieces of integer logic and proves their properties:

- **`ImageDecoder`** (`image_decoder.dfy`):
  - `encodeYUV420SP`: the loop that turns ARGB pixels into an NV21 (YUV420SP) frame, in place, in a byte array;
  - `getYUV420sp`: sizes the static `yuvs` buffer, then reuses and clears it or reallocates it;
  - `cropImage`: the centred crop rectangle;
  - `calculateInSampleSize`: the downsampling choice.
- **`Decoder`** (`decoder.dfy`):
  - the on-screen framing square and its image in preview coordinates, each computed once and cached in a field;
  - the luminance source cut out of a preview frame;
  - the order of decode attempts: the crop, the inverted crop, the whole frame, the inverted whole frame. The reader is reset after every attempt, and the result listener is called when an attempt succeeds.
- **`CameraFragment.LuminosityAnalyzer`** (`camera_fragment.dfy`):
  - a deque of the last frame timestamps, newest at the front;
  - a frame-rate estimate;
  - at most once a second, the mean luma of a frame, sent to every registered listener.
- **`ScannerActivity`** (`scanner_activity.dfy`):
  - its simpler once-a-second luminosity analyzer;
  - the mapping from the display's surface rotation to the angle `updateTransform` applies.

Shared pieces:

- `java_int.dfy`: Java's truncating `int` division (`Quot`), the `(byte)` cast (`ToJByte`) and `and 0xFF` (`Unsigned`). It also holds `Min`, the smaller of two values, which picks the smaller ratio in `calculateInSampleSize` and bounds the timestamp window. The `Math.min`/`Math.max` calls of the encoder are written out in `Clamp`.
- `analysis.dfy` (module `Analysis`): the exact mean of a Y plane's unsigned bytes and the one-second rule.
- `rects.dfy`: Android's `Rect`.
- `wrappers.dfy`: `Option`.
- `seqs.dfy`: associativity of sequence concatenation.

How the model is arranged:

- **Encoder.** The in-place encoder is a method on an `array`. Its postcondition says the array now holds `Encoded(argb, w, h)`, a function that says what NV21 contains, followed by the untouched tail. The lemmas about `Encoded` give:
  - the position and value of every Y byte;
  - the position and value of every V,U pair;
  - the raster order of the chroma slots.

  The helper methods `EncodeRow`, `EncodePixel` and `StorePixel` are the two loop bodies and the three stores, split out of `EncodeYuv420sp` so that each proof stays small. `PrepareBuffer` is the sizing half of `getYUV420sp`.
- **Cached geometry.** This is a class whose `Option` fields are the two nullable `Rect` fields.
- **Decode attempts.**
  - The ZXing reader is a parameter: the set of sources it decodes and what it finds in each.
  - The object records every attempt and reset in `readerEvents`, and every listener call in `delivered`.
  - `FirstSuccess` and `Tried` say what a fallback over a list of sources finds and which sources it hands to the reader.
- **Analyzers.** These are classes whose fields are the Kotlin fields. The clock is passed in as `now`, and a frame is passed in as the bytes of its Y plane.

## Model

| member | source | states |
|---|---|---|
| JavaInt.Quot | app/src/main/java/com/zorouyang/cameraxapp/util/Decoder.java:187-191 | Java `int` division: the quotient's magnitude is the floor of the operands' magnitudes, its sign is negative only when the signs differ, and it agrees with floor division on non-negative operands |
| JavaInt.ToJByte | app/src/main/java/com/zorouyang/cameraxapp/util/ImageDecoder.java:185 | the `(byte)` cast yields a signed byte congruent to its argument modulo 256 |
| JavaInt.Unsigned | app/src/main/java/com/zorouyang/cameraxapp/CameraFragment.kt:477 | `toInt() and 0xFF` yields a value in 0..255 congruent to the byte modulo 256 |
| JavaInt.UnsignedOfToJByte | app/src/main/java/com/zorouyang/cameraxapp/util/ImageDecoder.java:185 | storing an octet with `(byte)` and reading it back unsigned gives the octet back |
| JavaInt.ToJByteOfUnsigned | app/src/main/java/com/zorouyang/cameraxapp/CameraFragment.kt:477 | every byte is the cast of its unsigned reading |
| ImageDecoder.Red | app/src/main/java/com/zorouyang/cameraxapp/util/ImageDecoder.java:166 | red is an 8-bit channel value, in 0..255 |
| ImageDecoder.Green | app/src/main/java/com/zorouyang/cameraxapp/util/ImageDecoder.java:167 | green is an 8-bit channel value, in 0..255 |
| ImageDecoder.Blue | app/src/main/java/com/zorouyang/cameraxapp/util/ImageDecoder.java:168 | blue is an 8-bit channel value, in 0..255 |
| ImageDecoder.ChannelsIgnoreAlpha | app/src/main/java/com/zorouyang/cameraxapp/util/ImageDecoder.java:166-168 | alpha is never read: replacing bits 24 to 31 of the word changes none of red, green and blue |
| ImageDecoder.Clamp | app/src/main/java/com/zorouyang/cameraxapp/util/ImageDecoder.java:177-179 | the clamp lands in 0..255 and leaves values already in range unchanged |
| ImageDecoder.RawLuma | app/src/main/java/com/zorouyang/cameraxapp/util/ImageDecoder.java:173 | defines Y before clamping: `((66R + 129G + 25B + 128) >> 8) + 16`, with `>> 8` as floor division by 256 |
| ImageDecoder.RawChromaU | app/src/main/java/com/zorouyang/cameraxapp/util/ImageDecoder.java:174 | defines U before clamping: `((-38R - 74G + 112B + 128) >> 8) + 128` |
| ImageDecoder.RawChromaV | app/src/main/java/com/zorouyang/cameraxapp/util/ImageDecoder.java:175 | defines V before clamping: `((112R - 94G - 18B + 128) >> 8) + 128` |
| ImageDecoder.Luma | app/src/main/java/com/zorouyang/cameraxapp/util/ImageDecoder.java:173-177 | the Y written for a pixel lies in 0..255 |
| ImageDecoder.ChromaU | app/src/main/java/com/zorouyang/cameraxapp/util/ImageDecoder.java:174-178 | the U written for a pixel lies in 0..255 |
| ImageDecoder.ChromaV | app/src/main/java/com/zorouyang/cameraxapp/util/ImageDecoder.java:175-179 | the V written for a pixel lies in 0..255 |
| ImageDecoder.RawRanges | app/src/main/java/com/zorouyang/cameraxapp/util/ImageDecoder.java:173-175 | on 8-bit channels the integer equations give Y in 16..235 and U, V in 16..240 |
| ImageDecoder.ClampsAreInactive | app/src/main/java/com/zorouyang/cameraxapp/util/ImageDecoder.java:177-179 | so the clamps never change a value: each component equals its unclamped equation |
| ImageDecoder.WrittenLengthFormula | app/src/main/java/com/zorouyang/cameraxapp/util/ImageDecoder.java:150-192 | the encoder writes `w*h + 2*ceil(w/2)*ceil(h/2)` bytes: one Y per pixel and one V,U pair per pixel with even row and column |
| ImageDecoder.VuBytes | app/src/main/java/com/zorouyang/cameraxapp/util/ImageDecoder.java:187-192 | the chroma bytes written before pixel `(i, j)` are two per chroma site before it |
| ImageDecoder.VuBytesPrefix | app/src/main/java/com/zorouyang/cameraxapp/util/ImageDecoder.java:187-192 | chroma only grows: what is written before an earlier pixel is a prefix of what is written before a later one |
| ImageDecoder.LumaPlane | app/src/main/java/com/zorouyang/cameraxapp/util/ImageDecoder.java:185 | defines the Y plane: the cast clamped luma of each of the first `n` pixels, in raster order |
| ImageDecoder.Encoded | app/src/main/java/com/zorouyang/cameraxapp/util/ImageDecoder.java:148-195 | the encoded frame has exactly `w*h + 2*ceil(w/2)*ceil(h/2)` bytes |
| ImageDecoder.LumaAt | app/src/main/java/com/zorouyang/cameraxapp/util/ImageDecoder.java:166-185 | Y of the pixel with raster index `k = j*w + i` is stored at index `k`, and reads back unsigned as the clamped integer luma of its ARGB word |
| ImageDecoder.ChromaAt | app/src/main/java/com/zorouyang/cameraxapp/util/ImageDecoder.java:187-192 | for even `i` and `j`, V of pixel `(i, j)` is at `w*h + 2r` and U at `w*h + 2r + 1`, where `r` is the number of chroma sites before the pixel |
| ImageDecoder.SiteRank | app/src/main/java/com/zorouyang/cameraxapp/util/ImageDecoder.java:187-192 | the number of chroma sites before an even pixel `(i, j)` is `ceil(w/2)*(j/2) + i/2` |
| ImageDecoder.SlotSite | app/src/main/java/com/zorouyang/cameraxapp/util/ImageDecoder.java:154-156 | every chroma slot `c < ceil(w/2)*ceil(h/2)` belongs to the even pixel in column `2*(c mod ceil(w/2))` and row `2*(c div ceil(w/2))`, which lies in the frame |
| ImageDecoder.ChromaSlot | app/src/main/java/com/zorouyang/cameraxapp/util/ImageDecoder.java:154-192 | the V,U pairs fill the area from `frameSize` upward in raster order of the even positions: slot `c` holds V then U of that pixel |
| ImageDecoder.StorePixel | app/src/main/java/com/zorouyang/cameraxapp/util/ImageDecoder.java:185-192 | one pixel's stores: Y at the Y cursor, and for a chroma site V and U at the VU cursor, which then moves on by two; no other byte changes |
| ImageDecoder.EncodePixel | app/src/main/java/com/zorouyang/cameraxapp/util/ImageDecoder.java:164-192 | one inner iteration: all three cursors advance as the source does and the buffer gains that pixel's bytes |
| ImageDecoder.EncodeRow | app/src/main/java/com/zorouyang/cameraxapp/util/ImageDecoder.java:163-194 | one row: the cursors move from the start of row `j` to the start of row `j+1` and the buffer gains that row's bytes |
| ImageDecoder.EncodeYuv420sp | app/src/main/java/com/zorouyang/cameraxapp/util/ImageDecoder.java:148-195 | every write is in bounds, the buffer afterwards starts with `Encoded(argb, w, h)`, and every byte beyond it is unchanged |
| ImageDecoder.RoundUpEven | app/src/main/java/com/zorouyang/cameraxapp/util/ImageDecoder.java:123-124 | the required width and height are the input dimensions rounded up to the next even number |
| ImageDecoder.ByteLength | app/src/main/java/com/zorouyang/cameraxapp/util/ImageDecoder.java:126 | the buffer size `rw*rh*3/2` is at least the number of bytes the encoder writes |
| ImageDecoder.ByteLengthSuffices | app/src/main/java/com/zorouyang/cameraxapp/util/ImageDecoder.java:120-126 | the even rounding is what prevents the overflow the comment warns about: `w*h + 2*ceil(w/2)*ceil(h/2) <= rw*rh*3/2` |
| ImageDecoder.UnroundedLengthOverflows | app/src/main/java/com/zorouyang/cameraxapp/util/ImageDecoder.java:120-122 | without the rounding a 1 x 1 image needs 3 bytes of a 1-byte buffer |
| ImageDecoder.Zeros | app/src/main/java/com/zorouyang/cameraxapp/util/ImageDecoder.java:130 | a cleared buffer holds only zero bytes |
| ImageDecoder.YuvBuffer.constructor | app/src/main/java/com/zorouyang/cameraxapp/util/ImageDecoder.java:106 | the static buffer starts out `null` |
| ImageDecoder.YuvBuffer.PrepareBuffer | app/src/main/java/com/zorouyang/cameraxapp/util/ImageDecoder.java:127-131 | afterwards the buffer is all zeros and at least `byteLength` long; the old array is kept when it was long enough, and otherwise a fresh array of exactly `byteLength` replaces it |
| ImageDecoder.YuvBuffer.GetYuv420sp | app/src/main/java/com/zorouyang/cameraxapp/util/ImageDecoder.java:115-138 | returns the static buffer, at least `byteLength` long, reused when it was long enough and fresh otherwise, holding the encoded frame followed by zeros |
| ImageDecoder.CropRect | app/src/main/java/com/zorouyang/cameraxapp/util/ImageDecoder.java:239-244 | defines the `cropImage` rectangle: `x*6/8` by `y*6/8`, offset by half the spare width and half the spare height |
| ImageDecoder.CropRectCentred | app/src/main/java/com/zorouyang/cameraxapp/util/ImageDecoder.java:239-244 | the crop is `x*6/8` by `y*6/8`, lies within `[0,x] x [0,y]`, and its right (bottom) margin equals its left (top) one or exceeds it by one |
| ImageDecoder.RoundedRatio | app/src/main/java/com/zorouyang/cameraxapp/util/ImageDecoder.java:225-226 | `Math.round(a / b)` on the exact ratio: the integer nearest to `a/b`, halves rounded up |
| ImageDecoder.CalculateInSampleSizeAsWritten | app/src/main/java/com/zorouyang/cameraxapp/util/ImageDecoder.java:218-233 | 1 whenever `height <= reqHeight` and `width <= reqWidth`, otherwise the smaller of the two rounded ratios: it equals one of them and exceeds neither |
| ImageDecoder.RoundedSampleSizeUndershoots | app/src/main/java/com/zorouyang/cameraxapp/util/ImageDecoder.java:225-229 | with rounding, an 1800 x 1800 image with 1200 x 1200 requested gets sample size 2, which makes it 900 x 900, smaller than requested |
| ImageDecoder.CalculateInSampleSize | app/src/main/java/com/zorouyang/cameraxapp/util/ImageDecoder.java:218-233 | 1 when the image fits. Otherwise it is the largest size that keeps both dimensions: a size above 1 never shrinks either dimension below the requested one, and the next larger size would shrink one of them |
| Decoder.Invert | app/src/main/java/com/zorouyang/cameraxapp/util/Decoder.java:162 | defines `invert()` as a stand-in for ZXing's: the same source with its inversion flag flipped, so it always differs from the original and agrees with it in everything else |
| Decoder.InvertTwice | app/src/main/java/com/zorouyang/cameraxapp/util/Decoder.java:162 | inverting twice gives the original source back |
| Decoder.Read | app/src/main/java/com/zorouyang/cameraxapp/util/Decoder.java:154-159 | defines one guarded `decode` call as looking the source up in the reader: a symbol for the sources it decodes, `None` for a `ReaderException` |
| Decoder.Tried | app/src/main/java/com/zorouyang/cameraxapp/util/Decoder.java:150-173 | a fallback never tries more sources than it is given |
| Decoder.AttemptEvents | app/src/main/java/com/zorouyang/cameraxapp/util/Decoder.java:154-169 | two events per source tried |
| Decoder.AttemptEventsOrder | app/src/main/java/com/zorouyang/cameraxapp/util/Decoder.java:154-169 | every attempt is immediately followed by one reset: event `2k` is the attempt on source `k` and event `2k+1` is a reset |
| Decoder.FirstSuccess | app/src/main/java/com/zorouyang/cameraxapp/util/Decoder.java:150-173 | defines the result of trying sources in order: the reading of the first source the reader decodes, or `None` |
| Decoder.Pair | app/src/main/java/com/zorouyang/cameraxapp/util/Decoder.java:152-170 | a `null` source gives no attempts; any other gives two |
| Decoder.Delivered | app/src/main/java/com/zorouyang/cameraxapp/util/Decoder.java:103-108 | a result causes at most one listener call |
| Decoder.FirstSuccessSpec | app/src/main/java/com/zorouyang/cameraxapp/util/Decoder.java:150-173 | a fallback finds nothing if and only if every source fails |
| Decoder.TriedSpec | app/src/main/java/com/zorouyang/cameraxapp/util/Decoder.java:150-173 | a fallback that finds nothing tries every source; one that finds a symbol got it from the last source it tried, and every earlier source failed |
| Decoder.FirstSuccessAppend | app/src/main/java/com/zorouyang/cameraxapp/util/Decoder.java:93-101 | a fallback over `a + b` finds what the one over `a` finds, or, when that finds nothing, what the one over `b` finds |
| Decoder.TriedAppend | app/src/main/java/com/zorouyang/cameraxapp/util/Decoder.java:93-101 | a fallback over `a + b` tries the sources of `a`'s fallback, then `b`'s only when `a`'s finds nothing |
| Decoder.FallbackAppend | app/src/main/java/com/zorouyang/cameraxapp/util/Decoder.java:93-101 | both of the above together |
| Decoder.AttemptEventsAppend | app/src/main/java/com/zorouyang/cameraxapp/util/Decoder.java:94-100 | the events of two runs of attempts follow one another |
| Decoder.FallbackEvents | app/src/main/java/com/zorouyang/cameraxapp/util/Decoder.java:93-101 | the reader events of a fallback over `a + b` are those over `a`, then those over `b` only when `a` finds nothing |
| Decoder.OnePair | app/src/main/java/com/zorouyang/cameraxapp/util/Decoder.java:160-170 | when a source fails, its inversion is tried next and decides the result |
| Decoder.FullFrame | app/src/main/java/com/zorouyang/cameraxapp/util/Decoder.java:98 | defines the whole-frame source: offset 0,0, the frame's full width and height, not inverted |
| Decoder.Candidates | app/src/main/java/com/zorouyang/cameraxapp/util/Decoder.java:93-101 | defines the decode order: the crop and its inversion (none when the crop is `null`), then the whole frame and its inversion |
| Decoder.FullFrameOnlyAfterCrop | app/src/main/java/com/zorouyang/cameraxapp/util/Decoder.java:93-101 | the whole frame is handed to the reader if and only if the crop and its inversion both failed, and it is then the third source tried |
| Decoder.DecodeFindsIff | app/src/main/java/com/zorouyang/cameraxapp/util/Decoder.java:103-108 | the listener is called exactly once if and only if some candidate source decodes, and otherwise never |
| Decoder.FramingRect | app/src/main/java/com/zorouyang/cameraxapp/util/Decoder.java:187-192 | defines the on-screen framing square: side `screenX*5/8`, left and top offsets half the spare width and height, all with Java's truncating division |
| Decoder.FramingRectShape | app/src/main/java/com/zorouyang/cameraxapp/util/Decoder.java:187-192 | the framing rect is a square of side `screenX*5/8`; for `screenX >= 0` it lies in `[0, screenX]` horizontally with margins differing by at most one; vertically it is centred the same way when it fits the screen and, when it does not, reaches or overhangs both edges, overhanging the top by no more than the bottom |
| Decoder.ScaleWithin | app/src/main/java/com/zorouyang/cameraxapp/util/Decoder.java:229-232 | scaling an ordered pair of edges by `camera / screen` keeps them ordered and inside `[0, camera]` |
| Decoder.PreviewWithin | app/src/main/java/com/zorouyang/cameraxapp/util/Decoder.java:228-233 | a rect inside the screen scales to a rect inside the preview frame |
| Decoder.PreviewRect | app/src/main/java/com/zorouyang/cameraxapp/util/Decoder.java:229-232 | defines the preview rect: each edge multiplied by the camera size and divided by the screen size, with Java's truncating division |
| Decoder.CachedPreview | app/src/main/java/com/zorouyang/cameraxapp/util/Decoder.java:218-238 | defines the rect `getFramingRectInPreview` returns: the cached one when present, otherwise the framing rect scaled to this frame |
| Decoder.CropSource | app/src/main/java/com/zorouyang/cameraxapp/util/Decoder.java:255-256 | defines the cropped luminance source: the frame with the rect's left, top, width and height, not inverted |
| Decoder.Decoder.constructor | app/src/main/java/com/zorouyang/cameraxapp/util/Decoder.java:58-78 | records the screen resolution and the reader; no rect is cached, nothing is decoded yet |
| Decoder.Decoder.GetFramingRect | app/src/main/java/com/zorouyang/cameraxapp/util/Decoder.java:182-197 | returns the framing rect of the screen and caches it; once cached, later calls return it and leave the field unchanged |
| Decoder.Decoder.GetFramingRectInPreview | app/src/main/java/com/zorouyang/cameraxapp/util/Decoder.java:218-238 | the first call scales the framing rect by `width / screenX` and `height / screenY` and caches it; every later call returns that first rect whatever size it is given; it is never `null` |
| Decoder.Decoder.BuildLuminanceSource | app/src/main/java/com/zorouyang/cameraxapp/util/Decoder.java:249-257 | the source is the frame cropped to the cached preview rect; the `null` branch is modelled and shown unreachable |
| Decoder.Decoder.DecodeBySource | app/src/main/java/com/zorouyang/cameraxapp/util/Decoder.java:150-173 | for `null`: no result and no attempt; otherwise the source, then its inversion only if the source failed, with a reset after every attempt |
| Decoder.Decoder.DecodeWithFallback | app/src/main/java/com/zorouyang/cameraxapp/util/Decoder.java:94-108 | the crop's attempts, then the whole frame's only when they found nothing, then one listener call when there is a result |
| Decoder.Decoder.Decode | app/src/main/java/com/zorouyang/cameraxapp/util/Decoder.java:88-109 | the reader sees the four candidates in order until the first success, each followed by a reset, and the listener receives that first result once, or nothing |
| Analysis.UnsignedSum | app/src/main/java/com/zorouyang/cameraxapp/CameraFragment.kt:477-480 | the sum of the unsigned bytes is at most 255 per byte |
| Analysis.MeanOf | app/src/main/java/com/zorouyang/cameraxapp/CameraFragment.kt:477-480 | the mean counts every byte, and its sum is bounded by 255 times the count |
| Analysis.Value | app/src/main/java/com/zorouyang/cameraxapp/CameraFragment.kt:480 | a mean has a value exactly when the plane is non-empty (`average()` of nothing is `NaN`) |
| Analysis.MeanInRange | app/src/main/java/com/zorouyang/cameraxapp/CameraFragment.kt:477-480 | the luma of a non-empty plane lies in `[0, 255]` |
| Analysis.UnsignedSumAppend | app/src/main/java/com/zorouyang/cameraxapp/CameraFragment.kt:477-480 | the sum over two pieces of a plane is the sum of their sums |
| Analysis.UnsignedSumConstant | app/src/main/java/com/zorouyang/cameraxapp/ScannerActivity.kt:236-238 | a plane of one repeated byte sums to that byte's unsigned value times the length |
| Analysis.UniformPlane | app/src/main/java/com/zorouyang/cameraxapp/ScannerActivity.kt:236-238 | the luma of a uniform plane is its byte read unsigned, so an all-`0xFF` plane has luma 255 |
| Analysis.SignedBytesReadUnsigned | app/src/main/java/com/zorouyang/cameraxapp/CameraFragment.kt:477 | bytes with the sign bit set count high: the plane `[0, -1]` has luma 127.5 |
| Analysis.Due | app/src/main/java/com/zorouyang/cameraxapp/CameraFragment.kt:468 | defines the once-a-second rule: a frame is analyzed when at least 1000 ms have passed since the last analyzed one; `ScannerActivity.kt` lines 228-229 apply the same test |
| CameraFragment.CallsTo | app/src/main/java/com/zorouyang/cameraxapp/CameraFragment.kt:483 | every listener is called once, in list order, and all receive the same luma |
| CameraFragment.FramesPerSecondAsWritten | app/src/main/java/com/zorouyang/cameraxapp/CameraFragment.kt:464-465 | the analyzer's formula has a finite value exactly when the window's span is non-zero |
| CameraFragment.FramesPerSecond | app/src/main/java/com/zorouyang/cameraxapp/CameraFragment.kt:464-465 | the corrected rate has a finite value exactly when the window holds two frames or more and its span is non-zero |
| CameraFragment.EvenlySpacedRate | app/src/main/java/com/zorouyang/cameraxapp/CameraFragment.kt:462-465 | frames arriving every `p` ms are rated at exactly `1000 / p` per second by the corrected formula |
| CameraFragment.AsWrittenOverstatesRate | app/src/main/java/com/zorouyang/cameraxapp/CameraFragment.kt:464-465 | seven frames 100 ms apart are ten a second, but the analyzer's formula reports 35/3 |
| CameraFragment.LuminosityAnalyzer.constructor | app/src/main/java/com/zorouyang/cameraxapp/CameraFragment.kt:416-421 | the list starts with the optional listener; no timestamps, `lastAnalyzedTimestamp` 0, frame rate -1 |
| CameraFragment.LuminosityAnalyzer.OnFrameAnalyzed | app/src/main/java/com/zorouyang/cameraxapp/CameraFragment.kt:427 | appends exactly one listener to the end and answers `true` |
| CameraFragment.LuminosityAnalyzer.NotifyListeners | app/src/main/java/com/zorouyang/cameraxapp/CameraFragment.kt:483 | appends one call per listener, in list order, all with the same luma |
| CameraFragment.LuminosityAnalyzer.Analyze | app/src/main/java/com/zorouyang/cameraxapp/CameraFragment.kt:454-487 | no listeners: no state changes. Otherwise: `now` is at the front and the deque is a prefix of `now` followed by the old deque. It holds `min(old size + 1, 7)` entries, so eviction removes only the oldest, from the back. `framesPerSecond` is the analyzer's own formula `size * 1000 / span` over the new deque (`FramesPerSecondAsWritten`). Listeners are called with this frame's luma if and only if `now - lastAnalyzedTimestamp >= 1000`, and then `lastAnalyzedTimestamp` becomes `now`; otherwise it is unchanged |
| ScannerActivity.RotationDegrees | app/src/main/java/com/zorouyang/cameraxapp/ScannerActivity.kt:255-260 | exactly `ROTATION_0/90/180/270` have an angle, `ROTATION_n` (the value `k`) giving `90*k` degrees, so 0, 90, 180 and 270 |
| ScannerActivity.RotationDegreesInjective | app/src/main/java/com/zorouyang/cameraxapp/ScannerActivity.kt:255-259 | no two rotations map to the same angle |
| ScannerActivity.TransformAngle | app/src/main/java/com/zorouyang/cameraxapp/ScannerActivity.kt:255-262 | a transform is applied exactly for the four rotations, turning back by the rotation's angle; any other value returns early with none |
| ScannerActivity.LuminosityAnalyzer.constructor | app/src/main/java/com/zorouyang/cameraxapp/ScannerActivity.kt:212 | `lastAnalyzedTimestamp` starts at 0 |
| ScannerActivity.LuminosityAnalyzer.Analyze | app/src/main/java/com/zorouyang/cameraxapp/ScannerActivity.kt:225-244 | analyzes exactly when `now - lastAnalyzedTimestamp >= 1000`: then the result is the mean of the unsigned bytes and `lastAnalyzedTimestamp` becomes `now`; otherwise there is no result and no state changes |

## Left out

- The QR decoding itself (ZXing's `QRCodeReader`, `HybridBinarizer` and `BinaryBitmap`) is an external library. The reader is an abstract parameter: the set of sources it decodes and the symbol for each. The decode hints are not modelled.
- `PlanarYUVLuminanceSource` throws when its crop does not fit inside the frame. This check is not modelled. `Decoder.PreviewWithin` states when the crop fits.
- `Decoder.decode(String)`, `ImageDecoder.decodeSampledBitmap`, `Bitmap.getPixels`, `recycle` and `createBitmap` load or copy bitmaps through Android calls. They are not modelled: the ARGB words are an input of `GetYuv420sp`, and `cropImage` is its rectangle.
- Logging (`Log.d`) and the `System.nanoTime()` timing in `decode` are not modelled. The clock in the analyzers is the `now` parameter.
- `synchronized`, the analyzer threads and CameraX's calling of `analyze` are not modelled; every method is sequential.
- Java `int` and Kotlin `Long` arithmetic is unbounded here. Overflow of `rect.left * width`, `width * height` or timestamp differences is not modelled.
- `Double` arithmetic is replaced by exact values. The mean is an exact sum and count, and its value is a `real`. The frame rate is a `real` computed by the analyzer's own formula, with `None` where the `Double` arithmetic gives no finite value (an infinite rate for a zero span). The `Double` initial rate -1.0 is `Some(-1.0)`.
- ScannerActivity.LuminosityAnalyzer.Analyze: returns the luma it computes, where the source only logs it.
- ImageDecoder.RoundedRatio: rounds the exact ratio, not the `float` one. `float` rounding error in `Math.round((float) h / (float) reqH)` is not modelled.
- ImageDecoder.CalculateInSampleSizeAsWritten: requires positive requested dimensions. Its only caller, `decodeSampledBitmap`, returns before calling it when either is not positive.
- ImageDecoder.CalculateInSampleSize: when one dimension is below its requested size, the ratio rounded down can be 0, and the model returns it as is. The rounded ratio in the source can be 0 in the same way. `BitmapFactory` treats any sample size below 1 as 1, which is not modelled.
- Decoder.Decoder.GetFramingRectInPreview: requires a non-zero screen size when the rect is first computed. With a zero size, Java throws `ArithmeticException`, which is not modelled.
- Decoder.Decoder.BuildLuminanceSource: the `null` check on the preview rect is kept, but the model proves it never fires, so the source is always present.
- `ImageDecoder.yuvs` is a private static field. It is the field of a `YuvBuffer` object whose constructor stands for class loading.
- `encodeYUV420SP` only reads `argb`, so the array is passed as a sequence. Aliasing between `argb` and the output buffer cannot happen, because the two arrays have different element types.
- The float matrix of `updateTransform` (`postRotate` about the view centre, `setTransform`) is not modelled; `TransformAngle` gives only the angle passed to `postRotate`.
- Listeners are opaque identities, and a call to one is a `Call` record in `calls`. What a listener does with the value is outside the model.
- The empty plane: `average()` of no bytes is `NaN`. `Analysis.Value` gives `None` for it.

## Findings

| source | as written | input that shows it | evidently intended | confidence | as-written member | corrected member |
|---|---|---|---|---|---|---|
| app/src/main/java/com/zorouyang/cameraxapp/util/ImageDecoder.java:225-229 | the sample size is the smaller ratio rounded to the nearest integer | an 1800 x 1800 image with 1200 x 1200 requested gets size 2, so it decodes to 900 x 900 | the comment promises both dimensions stay at least as large as requested, which needs the ratios rounded down | high for the arithmetic, not executed | ImageDecoder.RoundedSampleSizeUndershoots | ImageDecoder.CalculateInSampleSize |
| app/src/main/java/com/zorouyang/cameraxapp/CameraFragment.kt:464-465 | the frame rate is `size * 1000 / span`, counting frames where the span only holds `size - 1` intervals | seven frames 100 ms apart give 35/3 instead of 10 frames per second | `(size - 1) * 1000 / span`, the reciprocal of the mean interval | medium, not executed | CameraFragment.AsWrittenOverstatesRate | CameraFragment.EvenlySpacedRate |
