/** The standalone demo page (`demo/app.js`): an older, all-in-one copy of the
    compositor with its own segmentation mailbox and frame counter. Its tightening
    zeroes the mask border instead of copying it, its blur radius has no fallback for
    a zero strength, and its mask requests are coalesced only once a mask exists. */
module DemoApp {
  import opened Wrappers
  import opened Pixels
  import opened MaskRefine
  import opened Blending
  import opened CoverFit
  import opened Compositor
  import opened Segmentation

  // ---------------------------------------------------------------- settings

  /** The slider and button values `composeFrame` reads: the background mode and the
      blur strength, edge smoothing and mask tightness in percent. */
  datatype Settings = Settings(mode: BackgroundMode, blurStrength: int, edgeSmoothing: int, maskTightness: int)

  /** The page's initial settings: mode `none`, blur 50, smoothing 10, tightness 15. */
  const InitialSettings := Settings(NoBackground, 50, 10, 15)

  /** `quality === 'high' ? 1 : 0`, the model selection the demo computes inline; it
      is the service's `getModelType`. */
  function DemoModelSelection(quality: string): (m: int)
    ensures m == GetModelType(quality)
  {
    if quality == "high" then MODEL_HIGH else MODEL_LOW
  }

  /** The background blur radius `max(1, round(blurStrength / 5))`. */
  function DemoBlurRadius(blurStrength: int): (r: nat)
    ensures r >= 1
    ensures blurStrength <= 52 ==> r <= 10
    ensures blurStrength >= 3 ==> 5 * r - 2 <= blurStrength <= 5 * r + 2
  {
    Max(1, Round(blurStrength as real / 5.0))
  }

  /** The demo and the service agree on the blur radius except at strength 0, where
      the service falls back to 50 (radius 10) and the demo uses radius 1. */
  lemma DemoBlurRadiusVersusService(blurStrength: int)
    ensures blurStrength != 0 ==> DemoBlurRadius(blurStrength) == BlurRadius(blurStrength as real)
    ensures DemoBlurRadius(0) == 1 && BlurRadius(0.0) == 10
  {
  }

  /** The feather radius the demo uses, `max(1, round(edgeSmoothing / 100 * 10))`,
      equals the service's, whose `edgeBlending || 0.1` fallback makes no difference. */
  lemma FeatherRadiusVersusService(edgeSmoothing: int)
    ensures FeatherRadius(edgeSmoothing as real / 100.0) ==
            FeatherRadius(EdgeStrength(edgeSmoothing as real / 100.0))
    ensures 1 <= FeatherRadius(edgeSmoothing as real / 100.0)
    ensures edgeSmoothing <= 100 ==> FeatherRadius(edgeSmoothing as real / 100.0) <= 10
  {
    if edgeSmoothing == 0 {
      assert EdgeStrength(0.0) == 0.1;
      assert Round(0.1 * 10.0) == 1;
    }
  }

  // ---------------------------------------------------------------- composition spec

  /** The mask after the demo's `tightenMask` (border-zeroing erosion) and
      `featherMask`. */
  function DemoProcessedMask(s: Settings, m: Raster, blur: BlurFilter): (r: seq<byte>)
    requires m.Valid() && BlurShape(blur)
    ensures |r| == |m.pixels|
  {
    var tightened := TightenedBy(m.pixels, m.width, m.height, s.maskTightness as real / 100.0, ZeroBorder);
    blur(tightened, m.width, m.height, FeatherRadius(s.edgeSmoothing as real / 100.0))
  }

  /** The buffer the frame is blended with: the blurred frame in blur mode, the
      cover-fitted background image otherwise. */
  function DemoBackground(s: Settings, image: Option<BackgroundImage>, f: Raster,
                          blur: BlurFilter, draw: BackgroundDraw): (b: seq<byte>)
    requires f.Valid() && BlurShape(blur) && DrawShape(draw)
    requires image.Some? ==> image.value.Loaded()
    requires s.mode == Blur || image.Some?
    ensures |b| == |f.pixels|
  {
    if s.mode == Blur then blur(f.pixels, f.width, f.height, DemoBlurRadius(s.blurStrength))
    else draw(image.value, CoverRect(image.value, f.width, f.height), f.width, f.height)
  }

  /** `composeFrame` passes the frame through (mode `none`, no mask, or replace mode
      without a background image). */
  predicate PassesThrough(s: Settings, image: Option<BackgroundImage>, hasMask: bool)
  {
    s.mode == NoBackground || !hasMask || (s.mode != Blur && image.None?)
  }

  /** The pixels `composeFrame(frame, mask)` returns. */
  function FrameComposed(s: Settings, image: Option<BackgroundImage>, f: Raster, m: Option<Raster>,
                         blur: BlurFilter, draw: BackgroundDraw): (r: seq<byte>)
    requires f.Valid() && (m.Some? ==> m.value.Valid()) && BlurShape(blur) && DrawShape(draw)
    requires image.Some? ==> image.value.Loaded()
    ensures |r| == |f.pixels|
  {
    if PassesThrough(s, image, m.Some?) then f.pixels
    else Blended(f.pixels, DemoProcessedMask(s, m.value, blur), DemoBackground(s, image, f, blur, draw))
  }

  /** Whenever the frame is not passed through, it is blended with DemoBackground by
      the processed mask. */
  lemma FrameComposedIsBlend(s: Settings, image: Option<BackgroundImage>, f: Raster, m: Option<Raster>,
                             blur: BlurFilter, draw: BackgroundDraw)
    requires f.Valid() && (m.Some? ==> m.value.Valid()) && BlurShape(blur) && DrawShape(draw)
    requires image.Some? ==> image.value.Loaded()
    requires !PassesThrough(s, image, m.Some?)
    ensures m.Some? && (s.mode == Blur || image.Some?)
    ensures FrameComposed(s, image, f, m, blur, draw) ==
      Blended(f.pixels, DemoProcessedMask(s, m.value, blur), DemoBackground(s, image, f, blur, draw))
  {
  }

  /** A blended frame is opaque everywhere. */
  lemma FrameComposedOpaque(s: Settings, image: Option<BackgroundImage>, f: Raster, m: Option<Raster>,
                            blur: BlurFilter, draw: BackgroundDraw)
    requires f.Valid() && (m.Some? ==> m.value.Valid()) && BlurShape(blur) && DrawShape(draw)
    requires image.Some? ==> image.value.Loaded()
    requires !PassesThrough(s, image, m.Some?)
    ensures Opaque(FrameComposed(s, image, f, m, blur, draw))
  {
    FrameComposedIsBlend(s, image, f, m, blur, draw);
    BlendedOpaque(f.pixels, DemoProcessedMask(s, m.value, blur), DemoBackground(s, image, f, blur, draw));
  }

  /** Per pixel of a blended frame: where the processed mask reaches, each colour byte
      lies between the frame's and the background's, is the frame's under mask 255 and
      the background's under mask 0; beyond the mask it is black. */
  lemma FrameComposedPixel(s: Settings, image: Option<BackgroundImage>, f: Raster, m: Option<Raster>,
                           blur: BlurFilter, draw: BackgroundDraw, p: nat, c: nat)
    requires f.Valid() && (m.Some? ==> m.value.Valid()) && BlurShape(blur) && DrawShape(draw)
    requires image.Some? ==> image.value.Loaded()
    requires !PassesThrough(s, image, m.Some?)
    requires p < f.width * f.height && c < 3
    ensures m.Some? && (s.mode == Blur || image.Some?)
    ensures var r, b := FrameComposed(s, image, f, m, blur, draw), DemoBackground(s, image, f, blur, draw);
      var mask := DemoProcessedMask(s, m.value, blur);
      && (4 * p < |mask| ==>
            && Min(f.pixels[4 * p + c], b[4 * p + c]) <= r[4 * p + c] <= Max(f.pixels[4 * p + c], b[4 * p + c])
            && (mask[4 * p] == 255 ==> r[4 * p + c] == f.pixels[4 * p + c])
            && (mask[4 * p] == 0 ==> r[4 * p + c] == b[4 * p + c]))
      && (4 * p >= |mask| ==> r[4 * p + c] == 0)
  {
    var mask := DemoProcessedMask(s, m.value, blur);
    var b := DemoBackground(s, image, f, blur, draw);
    FrameComposedIsBlend(s, image, f, m, blur, draw);
    if 4 * p < |mask| {
      BlendedPixel(f.pixels, mask, b, p, c);
    } else {
      BlendBeyondMask(f.pixels, mask, b, p);
    }
  }

  /** Without tightening and with a nonzero blur strength, the demo composes exactly as
      the service does with the same settings expressed as fractions, given the same
      blur filter and background draw for both. The two size their scratch blur canvases
      differently (the demo only on a change of width), which this model does not
      capture: every buffer here is fresh. */
  lemma {:induction false} FrameComposedVersusService(s: Settings, image: Option<BackgroundImage>, f: Raster,
                                                      m: Option<Raster>, blur: BlurFilter, draw: BackgroundDraw)
    requires f.Valid() && (m.Some? ==> m.value.Valid()) && BlurShape(blur) && DrawShape(draw)
    requires image.Some? ==> image.value.Loaded()
    requires s.maskTightness <= 0 && s.blurStrength != 0
    ensures FrameComposed(s, image, f, m, blur, draw) ==
      Composed(CompositeOptions(s.mode, s.blurStrength as real, s.edgeSmoothing as real / 100.0,
                                s.maskTightness as real / 100.0), image, f, m, blur, draw)
  {
    var o := CompositeOptions(s.mode, s.blurStrength as real, s.edgeSmoothing as real / 100.0,
                              s.maskTightness as real / 100.0);
    if !PassesThrough(s, image, m.Some?) {
      FeatherRadiusVersusService(s.edgeSmoothing);
      assert DemoProcessedMask(s, m.value, blur) == ProcessedMask(o, m.value, blur);
      DemoBlurRadiusVersusService(s.blurStrength);
      assert DemoBackground(s, image, f, blur, draw) == BlendBackground(o, image, f, blur, draw);
      ComposedIsBlend(o, image, f, m, blur, draw);
    } else {
      ComposedPassthrough(o, image, f, m, blur, draw);
    }
  }

  // ---------------------------------------------------------------- frame counter

  /** The frame counter: when the current one-second window started (ms), the frames
      counted in it, and the rate shown for the last closed window. */
  datatype FpsCounter = FpsCounter(lastFrameTime: real, frameCount: nat, fps: nat)

  /** `updateFPS()` at time `now` (ms). */
  function Tick(c: FpsCounter, now: real): FpsCounter
  {
    if now - c.lastFrameTime >= 1000.0 then FpsCounter(now, 0, c.frameCount + 1)
    else c.(frameCount := c.frameCount + 1)
  }

  /** `updateFPS()` called at each of the times in order. */
  function Ticks(c: FpsCounter, times: seq<real>): FpsCounter
    decreases |times|
  {
    if times == [] then c else Ticks(Tick(c, times[0]), times[1..])
  }

  /** All the times lie inside the window that started at `start`. */
  predicate InWindow(start: real, times: seq<real>)
  {
    forall i :: 0 <= i < |times| ==> times[i] - start < 1000.0
  }

  /** Inside one window every call adds one to the count and nothing else changes. */
  lemma {:induction false} TicksInWindow(c: FpsCounter, times: seq<real>)
    requires InWindow(c.lastFrameTime, times)
    ensures Ticks(c, times) == c.(frameCount := c.frameCount + |times|)
    decreases |times|
  {
    if times != [] {
      var c' := Tick(c, times[0]);
      assert InWindow(c'.lastFrameTime, times[1..]) by {
        forall i | 0 <= i < |times[1..]| ensures times[1..][i] - c'.lastFrameTime < 1000.0 {
          assert times[1..][i] == times[i + 1];
        }
      }
      TicksInWindow(c', times[1..]);
    }
  }

  /** The call that closes a window shows the number of calls made since the window
      started (itself included, plus any count carried in), resets the count and opens
      the next window at its own time. */
  lemma WindowCloses(c: FpsCounter, times: seq<real>, now: real)
    requires InWindow(c.lastFrameTime, times) && now - c.lastFrameTime >= 1000.0
    ensures Tick(Ticks(c, times), now) == FpsCounter(now, 0, c.frameCount + |times| + 1)
  {
    TicksInWindow(c, times);
  }

  /** The count never exceeds the calls made, and the rate shown is either the old one
      or a count of calls made. */
  lemma {:induction false} TicksBound(c: FpsCounter, times: seq<real>)
    ensures Ticks(c, times).frameCount <= c.frameCount + |times|
    ensures Ticks(c, times).fps == c.fps || Ticks(c, times).fps <= c.frameCount + |times|
    decreases |times|
  {
    if times != [] {
      TicksBound(Tick(c, times[0]), times[1..]);
    }
  }

  // ---------------------------------------------------------------- the page

  /** A results mask scaled by the browser: drawn at w x h and read back. */
  type MaskScale = (RawMask, nat, nat) -> seq<byte>

  ghost predicate ScaleShape(scale: MaskScale)
  {
    forall m: RawMask, w: nat, h: nat :: |scale(m, w, h)| == 4 * (w * h)
  }

  /** How far one `getSegmentationMask(frame)` call gets before its 10 ms wait:
      returned at once, rejected because the send failed, or sent. */
  datatype MaskStep = Returned(mask: Option<ImageData>) | Rejected(error: string) | Sent

  class WebChromaKey {
    /** The segmentation toggle the page shows. */
    var isSegmentationActive: bool
    var isSegmentationReady: bool
    /** A segmentation model exists (`segmentationModel` is not null). */
    var hasModel: bool
    /** The model's `modelSelection` option. */
    var modelSelection: int
    var quality: string
    var backgroundImage: Option<BackgroundImage>
    var backgroundMode: BackgroundMode
    var blurStrength: int
    var edgeSmoothing: int
    var maskTightness: int
    var lastFrameTime: real
    var frameCount: nat
    var fps: nat
    var lastMask: Option<ImageData>
    var isProcessing: bool
    /** The size a results mask is scaled to; 0 while no request has set it. */
    var targetMaskWidth: nat
    var targetMaskHeight: nat
    /** Requests sent to the model so far. */
    ghost var requestsSent: nat

    predicate Valid()
      reads this
    {
      && (lastMask.Some? ==> lastMask.value.Valid())
      && (backgroundImage.Some? ==> backgroundImage.value.Loaded())
      && (isSegmentationReady ==> hasModel)
    }

    function CurrentSettings(): Settings
      reads this
    {
      Settings(backgroundMode, blurStrength, edgeSmoothing, maskTightness)
    }

    function Counter(): FpsCounter
      reads this
    {
      FpsCounter(lastFrameTime, frameCount, fps)
    }

    /** The page's state once constructed (camera and DOM set-up are not modelled). */
    constructor ()
      ensures Valid()
      ensures !isSegmentationActive && !isSegmentationReady && !hasModel
      ensures backgroundImage.None? && quality == "medium" && CurrentSettings() == InitialSettings
      ensures Counter() == FpsCounter(0.0, 0, 0)
      ensures lastMask.None? && !isProcessing && targetMaskWidth == 0 && targetMaskHeight == 0
      ensures requestsSent == 0
    {
      isSegmentationActive, isSegmentationReady, hasModel := false, false, false;
      modelSelection, quality := MODEL_LOW, "medium";
      backgroundImage, backgroundMode := None, NoBackground;
      blurStrength, edgeSmoothing, maskTightness := 50, 10, 15;
      lastFrameTime, frameCount, fps := 0.0, 0, 0;
      lastMask, isProcessing := None, false;
      targetMaskWidth, targetMaskHeight := 0, 0;
      requestsSent := 0;
    }

    /** `initializeSegmentation()`: fails when the library is missing; otherwise creates
        the model for the current quality and initializes it. On failure segmentation is
        switched off. `modelInit` is the outcome of the model's initialization. */
    method InitializeSegmentation(libraryLoaded: bool, modelInit: Result<()>) returns (r: Result<()>)
      requires Valid()
      modifies this
      ensures Valid()
      ensures !libraryLoaded ==> r == Failure("MediaPipe not loaded")
      ensures !libraryLoaded ==> hasModel == old(hasModel) && modelSelection == old(modelSelection)
      ensures libraryLoaded ==> r == modelInit && hasModel && modelSelection == GetModelType(quality)
      ensures r.Success? ==> isSegmentationReady && isSegmentationActive == old(isSegmentationActive)
      ensures r.Failure? ==> !isSegmentationActive && isSegmentationReady == old(isSegmentationReady)
      ensures quality == old(quality) && lastMask == old(lastMask) && isProcessing == old(isProcessing)
      ensures CurrentSettings() == old(CurrentSettings()) && backgroundImage == old(backgroundImage)
      ensures requestsSent == old(requestsSent)
    {
      if !libraryLoaded {
        r := Failure("MediaPipe not loaded");
      } else {
        hasModel := true;
        modelSelection := DemoModelSelection(quality);
        r := modelInit;
      }
      if r.Success? {
        isSegmentationReady := true;
      } else {
        isSegmentationActive := false;
      }
    }

    /** `setQuality(quality)`: records the quality and, when a model exists,
        reconfigures it. */
    method SetQuality(q: string)
      modifies this
      ensures quality == q
      ensures old(hasModel) ==> modelSelection == GetModelType(q)
      ensures !old(hasModel) ==> modelSelection == old(modelSelection)
      ensures hasModel == old(hasModel) && isSegmentationReady == old(isSegmentationReady)
      ensures lastMask == old(lastMask) && isProcessing == old(isProcessing)
      ensures CurrentSettings() == old(CurrentSettings()) && backgroundImage == old(backgroundImage)
      ensures requestsSent == old(requestsSent)
    {
      quality := q;
      if hasModel {
        modelSelection := DemoModelSelection(q);
      }
    }

    /** `handleSegmentationResults(results)`: results without a mask are ignored;
        otherwise the mask, scaled to the target size (the mask's own size where none
        is set), becomes the last mask and the request is no longer in flight. A zero
        size makes reading the scaled mask throw, which changes nothing. */
    method HandleSegmentationResults(results: Option<RawMask>, scale: MaskScale)
      requires Valid() && ScaleShape(scale)
      modifies this
      ensures Valid()
      ensures results.None? ==> lastMask == old(lastMask) && isProcessing == old(isProcessing)
      ensures results.Some? ==>
        var w := if targetMaskWidth != 0 then targetMaskWidth else results.value.width;
        var h := if targetMaskHeight != 0 then targetMaskHeight else results.value.height;
        if w == 0 || h == 0 then
          lastMask == old(lastMask) && isProcessing == old(isProcessing)
        else
          && lastMask.Some? && fresh(lastMask.value) && !isProcessing
          && lastMask.value.width == w && lastMask.value.height == h
          && lastMask.value.data[..] == scale(results.value, w, h)
      ensures targetMaskWidth == old(targetMaskWidth) && targetMaskHeight == old(targetMaskHeight)
      ensures isSegmentationReady == old(isSegmentationReady) && hasModel == old(hasModel)
      ensures CurrentSettings() == old(CurrentSettings()) && backgroundImage == old(backgroundImage)
      ensures Counter() == old(Counter()) && requestsSent == old(requestsSent)
    {
      if results.None? {
        return;
      }
      var mask := results.value;
      var targetWidth := if targetMaskWidth != 0 then targetMaskWidth else mask.width;
      var targetHeight := if targetMaskHeight != 0 then targetMaskHeight else mask.height;
      if targetWidth == 0 || targetHeight == 0 {
        return;
      }
      var scaled := new ImageData.Of(targetWidth, targetHeight, scale(mask, targetWidth, targetHeight));
      lastMask := Some(scaled);
      isProcessing := false;
    }

    /** The part of `getSegmentationMask(frame)` before its wait: no mask unless
        segmentation is ready with a model; the last mask while a request is in flight
        and a last mask exists; otherwise a request is marked in flight, the target size
        becomes the frame's and the frame is sent. A failed send rejects the call and
        leaves the request marked in flight. With no last mask a request in flight does
        not stop a second one. */
    method RequestMask(frame: ImageData, send: Result<()>) returns (step: MaskStep)
      requires Valid() && frame.Valid()
      modifies this
      ensures Valid()
      ensures !old(isSegmentationReady) || !old(hasModel) ==>
        step == Returned(None) && isProcessing == old(isProcessing) && requestsSent == old(requestsSent)
      ensures old(isSegmentationReady) && old(hasModel) && old(isProcessing) && old(lastMask).Some? ==>
        step == Returned(old(lastMask)) && isProcessing && requestsSent == old(requestsSent)
      ensures old(isSegmentationReady) && old(hasModel) && !(old(isProcessing) && old(lastMask).Some?) ==>
        && isProcessing && requestsSent == old(requestsSent) + 1
        && targetMaskWidth == frame.width && targetMaskHeight == frame.height
        && (send.Success? ==> step == Sent)
        && (send.Failure? ==> step == Rejected(send.error))
      ensures !(old(isSegmentationReady) && old(hasModel) && !(old(isProcessing) && old(lastMask).Some?)) ==>
        targetMaskWidth == old(targetMaskWidth) && targetMaskHeight == old(targetMaskHeight)
      ensures lastMask == old(lastMask) && isSegmentationReady == old(isSegmentationReady) && hasModel == old(hasModel)
      ensures CurrentSettings() == old(CurrentSettings()) && backgroundImage == old(backgroundImage)
      ensures Counter() == old(Counter()) && quality == old(quality)
    {
      if !isSegmentationReady || !hasModel {
        return Returned(None);
      }
      if isProcessing && lastMask.Some? {
        return Returned(lastMask);
      }
      isProcessing := true;
      targetMaskWidth, targetMaskHeight := frame.width, frame.height;
      requestsSent := requestsSent + 1;
      if send.Failure? {
        return Rejected(send.error);
      }
      return Sent;
    }

    /** One whole `getSegmentationMask(frame)` call, with `arrived` the model's results
        if they arrive during the 10 ms wait (None when they do not); after the wait
        the call returns whatever the last mask is then. */
    method GetSegmentationMask(frame: ImageData, send: Result<()>, arrived: Option<Option<RawMask>>,
                               scale: MaskScale) returns (r: Result<Option<ImageData>>)
      requires Valid() && frame.Valid() && ScaleShape(scale)
      modifies this
      ensures Valid()
      ensures !old(isSegmentationReady) || !old(hasModel) ==> r == Success(None) && requestsSent == old(requestsSent)
      ensures old(isSegmentationReady) && old(hasModel) ==> r.Success? ==> r.value == lastMask
      ensures old(isProcessing) && old(lastMask).Some? ==>
        lastMask == old(lastMask) && isProcessing && requestsSent == old(requestsSent)
      ensures r.Failure? ==> send.Failure? && r == Failure(send.error) && isProcessing && requestsSent == old(requestsSent) + 1
      ensures requestsSent <= old(requestsSent) + 1
      ensures lastMask.Some? && lastMask != old(lastMask) ==> !isProcessing && lastMask.value.Valid()
      ensures isSegmentationReady == old(isSegmentationReady) && hasModel == old(hasModel)
      ensures CurrentSettings() == old(CurrentSettings()) && backgroundImage == old(backgroundImage)
      ensures Counter() == old(Counter())
    {
      var step := RequestMask(frame, send);
      match step {
        case Returned(m) => return Success(m);
        case Rejected(e) => return Failure(e);
        case Sent =>
      }
      if arrived.Some? {
        HandleSegmentationResults(arrived.value, scale);
      }
      return Success(lastMask);
    }

    /** `featherMask(mask, strength)`: the mask blurred by `FeatherRadius(strength)`. */
    method FeatherMask(mask: ImageData, strength: real, blur: BlurFilter) returns (r: ImageData)
      requires mask.Valid() && BlurShape(blur)
      ensures fresh(r) && fresh(r.data) && r.Valid()
      ensures r.width == mask.width && r.height == mask.height
      ensures r.data[..] == blur(mask.data[..], mask.width, mask.height, FeatherRadius(strength))
    {
      var blurAmount := FeatherRadius(strength);
      r := new ImageData.Of(mask.width, mask.height, blur(mask.data[..], mask.width, mask.height, blurAmount));
    }

    /** `applyBlur(frame, mask)`: the frame blended with its blurred copy. */
    method ApplyBlur(frame: ImageData, mask: ImageData, blur: BlurFilter) returns (output: ImageData)
      requires frame.Valid() && BlurShape(blur)
      ensures fresh(output) && fresh(output.data) && output.Valid()
      ensures output.width == frame.width && output.height == frame.height
      ensures output.data[..] == Blended(frame.data[..], mask.data[..],
                blur(frame.data[..], frame.width, frame.height, DemoBlurRadius(blurStrength)))
    {
      var blurAmount := DemoBlurRadius(blurStrength);
      var blurredFrame := blur(frame.data[..], frame.width, frame.height, blurAmount);
      output := Blend(frame, mask, blurredFrame);
    }

    /** `replaceBackground(frame, mask)`: the frame blended with the background image
        drawn to cover the frame. */
    method ReplaceBackground(frame: ImageData, mask: ImageData, draw: BackgroundDraw) returns (output: ImageData)
      requires Valid() && frame.Valid() && DrawShape(draw) && backgroundImage.Some?
      ensures fresh(output) && fresh(output.data) && output.Valid()
      ensures output.width == frame.width && output.height == frame.height
      ensures output.data[..] == Blended(frame.data[..], mask.data[..],
                draw(backgroundImage.value, CoverRect(backgroundImage.value, frame.width, frame.height),
                     frame.width, frame.height))
    {
      var image := backgroundImage.value;
      var rect := CoverRect(image, frame.width, frame.height);
      var bgData := draw(image, rect, frame.width, frame.height);
      output := Blend(frame, mask, bgData);
    }

    /** `composeFrame(frame, mask)`: the frame object itself when it passes through,
        otherwise a fresh buffer holding `FrameComposed`. */
    method ComposeFrame(frame: ImageData, mask: Option<ImageData>, blur: BlurFilter, draw: BackgroundDraw)
      returns (r: ImageData)
      requires Valid() && frame.Valid() && (mask.Some? ==> mask.value.Valid())
      requires BlurShape(blur) && DrawShape(draw)
      ensures r.Valid() && r.width == frame.width && r.height == frame.height
      ensures PassesThrough(CurrentSettings(), backgroundImage, mask.Some?) ==> r == frame
      ensures !PassesThrough(CurrentSettings(), backgroundImage, mask.Some?) ==> fresh(r) && fresh(r.data)
      ensures mask.None? ==> r.data[..] == frame.data[..]
      ensures mask.Some? ==>
        r.data[..] == FrameComposed(CurrentSettings(), backgroundImage, frame.Snapshot(),
                                    Some(mask.value.Snapshot()), blur, draw)
    {
      if backgroundMode == NoBackground || mask.None? {
        return frame;
      }
      var m := mask.value;
      ghost var mv := m.Snapshot();
      var processedMask := TightenMask(m, maskTightness as real / 100.0, ZeroBorder);
      processedMask := FeatherMask(processedMask, edgeSmoothing as real / 100.0, blur);
      assert processedMask.data[..] == DemoProcessedMask(CurrentSettings(), mv, blur);
      if backgroundMode == Blur {
        r := ApplyBlur(frame, processedMask, blur);
      } else if backgroundMode == Replace && backgroundImage.Some? {
        r := ReplaceBackground(frame, processedMask, draw);
      } else {
        r := frame;
      }
    }

    /** `updateFPS()` at time `now` (ms). */
    method UpdateFPS(now: real)
      modifies this
      ensures Counter() == Tick(old(Counter()), now)
      ensures isProcessing == old(isProcessing) && lastMask == old(lastMask) && requestsSent == old(requestsSent)
      ensures isSegmentationReady == old(isSegmentationReady) && hasModel == old(hasModel)
      ensures CurrentSettings() == old(CurrentSettings()) && backgroundImage == old(backgroundImage)
    {
      frameCount := frameCount + 1;
      if now - lastFrameTime >= 1000.0 {
        fps := frameCount;
        frameCount := 0;
        lastFrameTime := now;
      }
    }

    /** One pass of the render loop on a captured frame at time `now`: ask for a mask
        while segmentation is on and ready, compose when there is a mask and a
        background mode, then count the frame. A rejected mask request ends the pass
        early: nothing is drawn and the frame is not counted. */
    method RenderFrame(frame: ImageData, send: Result<()>, arrived: Option<Option<RawMask>>,
                       scale: MaskScale, blur: BlurFilter, draw: BackgroundDraw, now: real)
      returns (shown: Option<ImageData>)
      requires Valid() && frame.Valid() && ScaleShape(scale) && BlurShape(blur) && DrawShape(draw)
      modifies this
      ensures Valid()
      ensures !(old(isSegmentationActive) && old(isSegmentationReady)) ==>
        shown == Some(frame) && requestsSent == old(requestsSent)
      ensures shown.Some? ==> Counter() == Tick(old(Counter()), now)
      ensures shown.Some? ==> shown.value.Valid() && shown.value.width == frame.width
      ensures old(isSegmentationActive) && old(isSegmentationReady) && shown.Some? ==>
        if lastMask.Some? then
          shown.value.data[..] == FrameComposed(CurrentSettings(), backgroundImage, frame.Snapshot(),
                                                Some(lastMask.value.Snapshot()), blur, draw)
        else shown == Some(frame)
      ensures old(isSegmentationActive) && old(isSegmentationReady) && shown.Some? ==>
        PassesThrough(CurrentSettings(), backgroundImage, lastMask.Some?) ==> shown == Some(frame)
      ensures shown.None? ==> Counter() == old(Counter()) && isProcessing && requestsSent == old(requestsSent) + 1
      ensures requestsSent <= old(requestsSent) + 1
      ensures CurrentSettings() == old(CurrentSettings()) && backgroundImage == old(backgroundImage)
    {
      var mask: Option<ImageData> := None;
      if isSegmentationActive && isSegmentationReady {
        var got := GetSegmentationMask(frame, send, arrived, scale);
        if got.Failure? {
          return None;
        }
        mask := got.value;
      }
      var out := frame;
      if mask.Some? && backgroundMode != NoBackground {
        out := ComposeFrame(frame, mask, blur, draw);
      }
      UpdateFPS(now);
      return Some(out);
    }
  }
}
