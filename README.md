# WebChromaKey core in Dafny

WebChromaKey is a browser background remover. Each camera frame goes to a selfie-segmentation
model, which returns a person mask. The mask is then refined:

- It is thresholded with a contrast stretch.
- It is eroded by a 4-neighbour minimum filter.
- It is feathered by the canvas blur.

The refined mask blends each pixel of the frame with a background, `out = f·m/255 +
b·(1 − m/255)` per colour channel, with alpha forced to 255. The background is either a
blurred copy of the frame or an uploaded image drawn to cover the canvas.

This project models that pixel logic and the small state machines around the model. It covers
the TypeScript services `CanvasCompositor` and `SegmentationEngine` and the older
all-in-one `demo/app.js` page. Its properties are proved with Dafny.

Modules:

- `Pixels`: the browser's `ImageData` as a class over a byte array. It also defines the
  `Uint8ClampedArray` store (clamp to 0..255, round half to even) and `Math.round`.
- `Grid`: row/column arithmetic for a w×h pixel grid.
- `MaskRefine`: `tightenMask` as threshold, stretch and erosion. There is one spec and one
  method for both border rules:
  - `CopyBorder`: the service copies the border on every pass.
  - `ZeroBorder`: the demo leaves the border as zeros.
- `Blending`: the per-pixel blend loop. It is exact on integers and proved equal to the
  source's real-valued expression stored into a clamped byte.
- `CoverFit`: the cover-fit rectangle of `drawBackground`.
- `Compositor`: the `CanvasCompositor` class: options, radii, `compose`, `composeWithBlur`
  and `featherMask`.
- `Segmentation`: the `SegmentationEngine` class (`initialize`, `segment`, `handleResults`,
  `setQuality`, `dispose`) and `getModelType`.
- `DemoApp`: the demo page's `WebChromaKey` class: mask mailbox, `composeFrame`,
  `applyBlur`, `replaceBackground`, `updateFPS`, `setQuality` and `initializeSegmentation`,
  plus one pass of the render loop.

Browser raster operations are arrow-typed parameters whose only assumed property is the
size of what they return:

- the canvas blur filter (`BlurFilter`);
- drawing the background at a rectangle and reading it back (`BackgroundDraw`);
- drawing a results mask at a target size (`MaskScale`).

Asynchronous steps are split at their `await`. The model's reply is an explicit call to the
results handler, placed where the reply can arrive.

Behaviour of the code worth knowing:

- Mask value 200 at tightness 0.5 stretches to 165, not 255: the threshold is 100 and
  `(200 − 100)/(255 − 100)·255` rounds to 165 (`MaskRefine.StretchAt200`).
- Both `segment` and the demo's `getSegmentationMask` await before they return: the service
  awaits the model's reply and the demo a 10 ms wait, so a render pass that sends a request
  waits before it draws.
- The demo coalesces a request only when a last mask exists. With no mask yet, a second
  request is sent while one is in flight (`DemoApp.WebChromaKey.RequestMask`).
- A failed send in the demo leaves `isProcessing` set. When a last mask exists, every call
  from then on returns it until a result arrives; with none, each call sends again and a
  failing send rejects again.
- Edge strength 0..1 gives a feather radius of 1..10 px, not the 0..5 px its comment
  mentions (`Compositor.FeatherRadius`).
- A blur strength of 0 gives radius 10 in the service (`|| 50`) but radius 1 in the demo
  (`DemoApp.DemoBlurRadiusVersusService`).
- A tightness above about 1.27 gives a threshold of at least 255, and the whole mask goes
  black. Above 255 every value is below the threshold and is written as 0 without computing
  a ratio. At exactly 255 only the value 255 reaches the ratio, which is `0/0`; the NaN is
  stored as 0.
- Blend pixels beyond the end of a smaller mask read `undefined`, which stores 0: they come
  out black (`Blending.BlendBeyondMask`).
- The service's `handleResults` writes one pixel per mask value. When there are fewer values
  than pixels, the remaining pixels stay all zero, alpha included (`Segmentation.ConvertedAt`).

## Model

| member | source | states |
|---|---|---|
| Pixels.ImageData.constructor | src/services/CanvasCompositor.ts:60 | `new ImageData(w, h)` is a fresh w×h RGBA buffer, all zeros |
| Pixels.ImageData.Of | src/services/CanvasCompositor.ts:224 | `getImageData` gives a fresh buffer holding exactly the given pixels |
| Pixels.Round | src/services/CanvasCompositor.ts:115 | `Math.round(x)` is within half of x, halves rounded up |
| Pixels.RoundMonotone | src/services/CanvasCompositor.ts:135 | `Math.round` never decreases as its argument grows |
| Pixels.ToByte | src/services/CanvasCompositor.ts:126-128 | a store into a clamped array gives 0 at or below 0, 255 at or above 255, and otherwise a value within half of the input |
| Pixels.ToByteBetween | src/services/CanvasCompositor.ts:93-95 | storing a value that lies between two bytes stores a byte between them |
| Pixels.ToByteMonotone | src/services/CanvasCompositor.ts:125-128 | the clamped store is monotone |
| MaskRefine.ThresholdOf | src/services/CanvasCompositor.ts:115 | threshold `round(tightness·200)` is ≥ 0, ≤ 200 for tightness ≤ 1, 0 at tightness 0 and 200 at 1 |
| MaskRefine.PassesOf | src/services/CanvasCompositor.ts:135 | `max(1, round(tightness·6))`: at least one pass, at most 6 for tightness ≤ 1, at least 2 from tightness 0.25 |
| MaskRefine.Stretch | src/services/CanvasCompositor.ts:119-129 | a value at or below the threshold gives 0; below threshold 255 the stretched value is 255 exactly when the input is 255; a threshold ≥ 255 gives 0 |
| MaskRefine.StretchIsStore | src/services/CanvasCompositor.ts:125-128 | the integer stretch equals storing `min(255, (v−t)/(255−t)·255)` into a clamped byte |
| MaskRefine.StretchMonotone | src/services/CanvasCompositor.ts:125 | a larger mask value never stretches to a smaller one |
| MaskRefine.ThresholdedPixel | src/services/CanvasCompositor.ts:118-131 | after thresholding: alpha 255; R=G=B=0 below the threshold and the stretched value otherwise; 0 at v = t; 255 exactly at v = 255 |
| MaskRefine.ThresholdedGrayOpaque | src/services/CanvasCompositor.ts:118-131 | the thresholded mask is gray (R=G=B) and opaque |
| MaskRefine.ThresholdMask | src/services/CanvasCompositor.ts:116-131 | the threshold loop fills a fresh buffer with `Thresholded` of the mask |
| MaskRefine.Min5 | src/services/CanvasCompositor.ts:153 | `Math.min` of five bytes is at most each of them and equal to one of them |
| MaskRefine.ErodeInteriorMin | src/services/CanvasCompositor.ts:141-160 | an interior pixel becomes the minimum red value of itself and its four neighbours |
| MaskRefine.ErodeRemovesIsolated | src/services/CanvasCompositor.ts:141-160 | an interior pixel with a zero neighbour is zero after one pass, so an isolated foreground pixel disappears |
| MaskRefine.ErodeAlpha | demo/app.js:376-389 | after a pass alpha is 255 wherever the pass writes and 0 on the border under the demo rule |
| MaskRefine.ErodedColourBelow | src/services/CanvasCompositor.ts:141-192 | on a gray mask one pass never raises a colour byte, and the pixel stays gray |
| MaskRefine.ErodeGrayMonotone | src/services/CanvasCompositor.ts:138-195 | one pass keeps a gray mask gray and never raises a colour byte |
| MaskRefine.ErodeNGray | src/services/CanvasCompositor.ts:138-195 | any number of passes keeps a gray mask gray |
| MaskRefine.ErodeNMonotone | src/services/CanvasCompositor.ts:138-195 | each further pass never raises a colour byte |
| MaskRefine.ErodeNBelowStart | src/services/CanvasCompositor.ts:138-195 | after k passes no colour byte exceeds its value before the passes |
| MaskRefine.CopyBorderKeepsBorder | src/services/CanvasCompositor.ts:162-192 | with the copied border, every border colour byte keeps its value through every pass |
| MaskRefine.CopyBorderSmallGrid | src/services/CanvasCompositor.ts:141-192 | with fewer than 3 rows or columns, erosion leaves an opaque mask unchanged |
| MaskRefine.OpaqueBorderFixed | src/services/CanvasCompositor.ts:162-192 | one copied-border pass over an opaque grid without interior pixels changes nothing |
| MaskRefine.ZeroBorderClearsBorder | demo/app.js:371-394 | under the demo rule every border byte, alpha included, is 0 after at least one pass |
| MaskRefine.ZeroBorderSmallGrid | demo/app.js:371-394 | under the demo rule a mask with fewer than 3 rows or columns becomes all zeros |
| MaskRefine.UniformFixed | src/services/CanvasCompositor.ts:138-195 | one copied-border pass over a uniform opaque mask changes nothing |
| MaskRefine.CopyBorderUniformFixed | src/services/CanvasCompositor.ts:138-195 | any number of copied-border passes leaves a uniform opaque mask unchanged |
| MaskRefine.TightenedCopyBorder | src/services/CanvasCompositor.ts:109-198 | tightening never raises a colour byte above its thresholded value, and the border ends at the thresholded values |
| MaskRefine.TightenedZeroBorder | demo/app.js:347-398 | the demo's tightening never raises a colour byte above its thresholded value, and the border ends at 0 |
| MaskRefine.UniformTightened | src/services/CanvasCompositor.ts:109-198 | a uniform mask of value v tightens to the uniform mask of `Stretch(v, t)` |
| MaskRefine.StretchAt200 | src/services/CanvasCompositor.ts:115-135 | tightness 0.5 gives threshold 100 and 3 passes, and value 200 stretches to 165 |
| MaskRefine.ErodeInterior | src/services/CanvasCompositor.ts:139-160 | the nested interior loops fill a fresh zeroed buffer with the demo-rule erosion of the current mask |
| MaskRefine.CopyBorders | src/services/CanvasCompositor.ts:162-192 | the two border loops turn that buffer into the copied-border erosion |
| MaskRefine.ErodePass | src/services/CanvasCompositor.ts:138-195 | one pass writes a fresh buffer holding `Erode` of the previous one under the given border rule |
| MaskRefine.TightenMask | src/services/CanvasCompositor.ts:109-198 | returns the mask object itself when tightness ≤ 0; otherwise a fresh buffer holding the threshold stage followed by `PassesOf(tightness)` erosion passes |
| Blending.RoundedQuotient | src/services/CanvasCompositor.ts:93-95 | the integer quotient by 255 is within 127/255 of the exact ratio |
| Blending.BlendChannelIsStore | src/services/CanvasCompositor.ts:90-95 | the integer blend equals storing `f·(m/255) + b·(1 − m/255)` into a clamped byte |
| Blending.BlendChannelBetween | src/services/CanvasCompositor.ts:93-95 | a blended channel lies between the frame's and the background's |
| Blending.BlendChannelFull | src/services/CanvasCompositor.ts:93-95 | mask 255 gives the frame's channel |
| Blending.BlendChannelEmpty | src/services/CanvasCompositor.ts:93-95 | mask 0 gives the background's channel |
| Blending.BlendChannelMonotone | src/services/CanvasCompositor.ts:93-95 | when the frame's channel is at least the background's, a larger mask never gives a smaller output |
| Blending.BlendedAt | src/services/CanvasCompositor.ts:89-97 | each output pixel is the channel blend by the mask's red byte with alpha 255, and black where the mask has no pixel |
| Blending.BlendedOpaque | src/services/CanvasCompositor.ts:96 | every blended pixel has alpha 255 |
| Blending.BlendedPixel | src/services/CanvasCompositor.ts:89-97 | per pixel and channel: between the two inputs, the frame's under mask 255, the background's under mask 0 |
| Blending.BlendFullMask | src/services/CanvasCompositor.ts:89-97 | an all-255 mask over an opaque frame reproduces the frame |
| Blending.BlendEmptyMask | src/services/CanvasCompositor.ts:89-97 | an all-0 mask over an opaque background reproduces the background |
| Blending.BlendBeyondMask | src/services/CanvasCompositor.ts:90 | pixels past the end of the mask come out black and opaque |
| Blending.Blend | src/services/CanvasCompositor.ts:273-284 | the blend loop fills a fresh frame-sized buffer with `Blended` |
| CoverFit.Cover | src/services/CanvasCompositor.ts:304-318 | the rectangle covers the canvas, keeps the image's aspect ratio and is centred; which side is fitted depends on which ratio is larger |
| CoverFit.CoverIsSmallest | src/services/CanvasCompositor.ts:309-318 | any aspect-keeping rectangle that covers the canvas is at least as large |
| CoverFit.CoverExact | src/services/CanvasCompositor.ts:304-318 | an image with the canvas's aspect ratio is drawn exactly over the canvas |
| Compositor.MergeProperties | src/services/CanvasCompositor.ts:47-49 | given keys replace, missing keys keep their value, merging nothing changes nothing, and merging twice equals merging once |
| Compositor.MergeTwice | src/services/CanvasCompositor.ts:47-49 | two `setOptions` calls equal one call with the combined keys |
| Compositor.EdgeStrength | src/services/CanvasCompositor.ts:75 | `edgeBlending \|\| 0.1` is never 0 and keeps any nonzero value |
| Compositor.FeatherRadius | src/services/CanvasCompositor.ts:218 | feather radius ≥ 1, ≤ 10 for strength ≤ 1, `round(strength·10)` from 0.05 |
| Compositor.BlurRadius | src/services/CanvasCompositor.ts:262 | blur radius ≥ 1, 10 at strength 0, ≤ 10 up to 50, `round(strength/5)` from 2.5 |
| Compositor.FeatherRadiusMonotone | src/services/CanvasCompositor.ts:218 | a larger strength never gives a smaller feather radius |
| Compositor.BlurRadiusMonotone | src/services/CanvasCompositor.ts:262 | away from 0, a larger strength never gives a smaller blur radius |
| Compositor.CoverRect | src/services/CanvasCompositor.ts:301-327 | the draw rectangle of `drawBackground` covers the canvas, keeps the aspect ratio and is centred |
| Compositor.ComposedPassthrough | src/services/CanvasCompositor.ts:65-69 | mode none, no mask, or replace mode with no image give the frame's bytes |
| Compositor.ComposedIsBlend | src/services/CanvasCompositor.ts:71-97 | otherwise the output is the blend of the frame with the background by the tightened and feathered mask |
| Compositor.ComposedBlendOpaque | src/services/CanvasCompositor.ts:89-97 | a blended output is opaque |
| Compositor.ComposedBlendPixel | src/services/CanvasCompositor.ts:89-97 | a blended output pixel lies between frame and background, is the frame under mask 255, the background under mask 0, and black past the mask |
| Compositor.CanvasCompositor.constructor | src/services/CanvasCompositor.ts:15-23 | the options are the defaults (replace, 50, 0.1, 0.15) overridden by the given keys |
| Compositor.CanvasCompositor.SetOutputCanvas | src/services/CanvasCompositor.ts:28-35 | the canvas is kept, and the call throws exactly when no 2D context is available |
| Compositor.CanvasCompositor.SetBackgroundImage | src/services/CanvasCompositor.ts:40-42 | the image becomes the background and nothing else changes |
| Compositor.CanvasCompositor.SetOptions | src/services/CanvasCompositor.ts:47-49 | the options become the old ones merged with the given keys |
| Compositor.CanvasCompositor.FeatherMask | src/services/CanvasCompositor.ts:203-225 | a fresh mask-sized buffer holding the blur of the mask at `FeatherRadius(strength)` |
| Compositor.CanvasCompositor.ComposeWithBlur | src/services/CanvasCompositor.ts:230-285 | throws exactly without a context; otherwise a fresh buffer blending the frame with its blur at `BlurRadius` |
| Compositor.CanvasCompositor.Compose | src/services/CanvasCompositor.ts:54-104 | throws exactly without canvas and context; otherwise a fresh frame-sized buffer equal to the frame without a mask, and to `Composed` with one |
| Segmentation.GetModelType | src/services/SegmentationEngine.ts:222-232 | model 1 exactly for `'high'`, and 0 for every other quality |
| Segmentation.MaskByte | src/services/SegmentationEngine.ts:188-192 | a mask value in 0..1 is stored within half of `value·255`; ≤ 0 gives 0 and ≥ 1 gives 255 |
| Segmentation.ConvertedAt | src/services/SegmentationEngine.ts:183-194 | pixel p is `(b, b, b, 255)` with b the stored value p; pixels past the values stay all zero |
| Segmentation.ConvertedGray | src/services/SegmentationEngine.ts:187-194 | the converted mask is gray |
| Segmentation.ConvertedOpaque | src/services/SegmentationEngine.ts:187-194 | with at least one value per pixel the converted mask is opaque |
| Segmentation.ConvertMask | src/services/SegmentationEngine.ts:183-194 | the conversion loop fills a fresh mask-sized buffer with `Converted`; writes past the buffer are dropped |
| Segmentation.SegmentationEngine.constructor | src/services/SegmentationEngine.ts:12-19 | no model, quality `'medium'`, not initialized, not processing, no last mask |
| Segmentation.SegmentationEngine.Initialize | src/services/SegmentationEngine.ts:24-67 | a no-op once initialized; otherwise the script, library and model steps fail with their own messages, and success sets initialized with model `getModelType(quality)` |
| Segmentation.SegmentationEngine.Segment | src/services/SegmentationEngine.ts:121-149 | throws when not initialized or without a model; while processing it answers with the last mask and its size, or throws without one; otherwise it marks processing and sends one request |
| Segmentation.SegmentationEngine.FinishSegment | src/services/SegmentationEngine.ts:154-165 | clears processing and throws "No segmentation result received" exactly when there is no last mask |
| Segmentation.SegmentationEngine.HandleResults | src/services/SegmentationEngine.ts:171-197 | results without a mask change nothing; otherwise the last mask becomes a fresh buffer of the mask's size holding `Converted` |
| Segmentation.SegmentationEngine.SegmentFrame | src/services/SegmentationEngine.ts:121-166 | a call that finds no request in flight leaves none in flight, whatever happens; a coalesced call changes nothing; a success returns the last mask |
| Segmentation.SegmentationEngine.SetQuality | src/services/SegmentationEngine.ts:237-244 | ignored without a model; otherwise it records the quality and reconfigures with `getModelType` |
| Segmentation.SegmentationEngine.Dispose | src/services/SegmentationEngine.ts:256-263 | no model, not initialized, no last mask, so `isReady()` is false; quality and model selection kept |
| Segmentation.DisposeThenSegment | src/services/SegmentationEngine.ts:122-124 | after `dispose`, `segment` throws "SegmentationEngine not initialized" and sends nothing |
| DemoApp.DemoModelSelection | demo/app.js:197 | the demo's inline `quality === 'high' ? 1 : 0` equals the service's `getModelType` |
| DemoApp.DemoBlurRadius | demo/app.js:438 | blur radius ≥ 1, ≤ 10 up to strength 52, within 2/5 of strength/5 from strength 3 |
| DemoApp.DemoBlurRadiusVersusService | demo/app.js:438 | the demo's radius equals the service's except at strength 0, where it is 1 against 10 |
| DemoApp.FeatherRadiusVersusService | demo/app.js:412 | the demo's feather radius equals the service's, whose `\|\| 0.1` fallback makes no difference |
| DemoApp.FrameComposedIsBlend | demo/app.js:324-345 | a frame that is not passed through is blended with the blurred frame or the drawn background by the demo-tightened, feathered mask |
| DemoApp.FrameComposedOpaque | demo/app.js:447-453 | a blended frame is opaque |
| DemoApp.FrameComposedPixel | demo/app.js:484-490 | a blended pixel lies between frame and background, is the frame under mask 255, the background under mask 0, and black past the mask |
| DemoApp.FrameComposedVersusService | demo/app.js:324-345 | without tightening and with a nonzero blur strength, the demo composes exactly as the service |
| DemoApp.TicksInWindow | demo/app.js:495-507 | within one second of the window start every call adds one to the count and changes nothing else |
| DemoApp.WindowCloses | demo/app.js:495-507 | the call that closes a window shows the calls counted since it opened, itself included, resets the count and opens the next window at its own time |
| DemoApp.TicksBound | demo/app.js:495-507 | the count never exceeds the calls made, and the shown rate is the old one or at most the calls made |
| DemoApp.WebChromaKey.constructor | demo/app.js:15-32 | mode none, quality medium, blur 50, smoothing 10, tightness 15, counters 0, no mask, not processing |
| DemoApp.WebChromaKey.InitializeSegmentation | demo/app.js:181-214 | fails with "MediaPipe not loaded" without the library; otherwise the model is created for the current quality; success sets ready, and failure switches segmentation off |
| DemoApp.WebChromaKey.SetQuality | demo/app.js:509-523 | records the quality and, when a model exists, reconfigures it with `getModelType` |
| DemoApp.WebChromaKey.HandleSegmentationResults | demo/app.js:219-238 | results without a mask change nothing; otherwise the mask scaled to the target size, or its own size when none is set, becomes the last mask and processing is cleared |
| DemoApp.WebChromaKey.RequestMask | demo/app.js:240-273 | no mask unless ready with a model; the last mask while one exists and a request is in flight; otherwise a request is marked, the target size becomes the frame's, and a failed send rejects |
| DemoApp.WebChromaKey.GetSegmentationMask | demo/app.js:240-279 | a coalesced call returns the last mask and changes nothing; a success returns the last mask as it is after the wait; a rejection leaves processing set |
| DemoApp.WebChromaKey.FeatherMask | demo/app.js:400-418 | a fresh mask-sized buffer holding the blur of the mask at `FeatherRadius(strength)` |
| DemoApp.WebChromaKey.ApplyBlur | demo/app.js:420-456 | a fresh frame-sized buffer blending the frame with its blur at `DemoBlurRadius` |
| DemoApp.WebChromaKey.ReplaceBackground | demo/app.js:458-493 | a fresh frame-sized buffer blending the frame with the background drawn at the cover rectangle |
| DemoApp.WebChromaKey.ComposeFrame | demo/app.js:324-345 | returns the frame object itself when it passes through, and otherwise a fresh buffer equal to `FrameComposed` |
| DemoApp.WebChromaKey.UpdateFPS | demo/app.js:495-507 | the counter moves by one `Tick` at the given time |
| DemoApp.WebChromaKey.RenderFrame | demo/app.js:282-319 | with segmentation off or not ready the frame is shown as captured; otherwise the shown frame is `composeFrame(frame, mask)` with the mask obtained, the captured frame itself when it passes through; a shown frame is counted; a rejected mask request shows and counts nothing |

## Left out

- The canvas blur (`filter = blur(..)`) in `featherMask`, `composeWithBlur` and `applyBlur` is a browser Gaussian. It is a parameter; only its output size and the radius formulas are modelled.
- `drawImage`/`getImageData` of the background image and of the demo's results mask are parameters too. Only the cover-fit rectangle is modelled.
- Floating point: tightness, blur strength and the cover-fit rectangle are exact reals. Rounding of IEEE doubles is not modelled, and neither is NaN, except that a threshold of 255 or more stores 0 as the source's `0/0` does.
- Mask values are reals, not 32-bit floats. The set of float32 values is not modelled. For a float32 value the
  double product `mask.data[i] * 255` is exact (a 24-bit significand times the 8-bit 255 fits in 53 bits), so `Segmentation.MaskByte` agrees with the source on every such value.
- An exception thrown inside a results callback (`new ImageData(0, h)` or `getImageData` at zero width or height, for a zero-size mask or target) is modelled as no change to the state, which is its only effect there (`Segmentation.SegmentationEngine.HandleResults`, `DemoApp.WebChromaKey.HandleSegmentationResults`); the logged error is not modelled.
- Timers and waiting: script loading (`loadMediaPipeScript`), library polling (`waitForSelfieSegmentation`), `waitForResult` with its 1 s timeout, and the demo's 10 ms `setTimeout` are not modelled. Their outcomes are parameters (`scriptLoads`, `libraryAppears`, `modelInit`, `send`, `reply`/`arrived`).
- The frame's pixels sent to the model are not modelled; only the fact that a request is sent is counted, in the ghost field `requestsSent`.
- Segmentation.SegmentationEngine.Segment: `model.send` is an outcome parameter. An exception thrown while building the input canvas is not modelled.
- DemoApp.WebChromaKey.RequestMask: the low-quality 0.5 downscale of the frame before sending is left out, because only the request itself is modelled.
- Camera and device I/O, the React components and pages, the demo's DOM wiring (`loadCameras`, `setupEventListeners`, `setBackgroundMode`, `setSegmentationActive`, `handleImageUpload`, overlays, `updateAIResolution`), `alert` and logging are not modelled. Fields those set (`backgroundMode`, the sliders, `backgroundImage`, `isSegmentationActive`) are plain fields of the class.
- `CanvasCompositor.render`, `clear` and `getBackgroundMode` only forward to the canvas or read a field; only `getBackgroundMode` is kept, as `GetBackgroundMode`.
- Reuse of the scratch canvases between frames is not modelled: every buffer a step returns is fresh.
- Compositor.CanvasCompositor.SetBackgroundImage: requires a loaded image (positive size), which the browser guarantees for the images the page passes.
