/** The compositor service: options, the output-canvas guard, and `compose`, which
    passes the frame through or blends it, by a tightened and feathered mask, with
    the blurred frame or with the cover-fitted background image. */
module Compositor {
  import opened Wrappers
  import opened Pixels
  import opened MaskRefine
  import opened Blending
  import opened CoverFit

  /** `'replace' | 'blur' | 'none'`. */
  datatype BackgroundMode = Replace | Blur | NoBackground

  datatype CompositeOptions = CompositeOptions(
    backgroundMode: BackgroundMode,
    blurStrength: real,
    edgeBlending: real,
    maskTightness: real)

  /** A `Partial<CompositeOptions>`: None is a key that is absent. */
  datatype PartialOptions = PartialOptions(
    backgroundMode: Option<BackgroundMode>,
    blurStrength: Option<real>,
    edgeBlending: Option<real>,
    maskTightness: Option<real>)

  /** The constructor's defaults: replace mode, blur strength 50, edge blending 0.1,
      mask tightness 0.15. */
  const DefaultOptions := CompositeOptions(Replace, 50.0, 0.1, 0.15)

  const NoOptions := PartialOptions(None, None, None, None)

  /** `{ ...o, ...p }`: every key present in p replaces the one in o. */
  function Merge(o: CompositeOptions, p: PartialOptions): CompositeOptions
  {
    CompositeOptions(
      if p.backgroundMode.Some? then p.backgroundMode.value else o.backgroundMode,
      if p.blurStrength.Some? then p.blurStrength.value else o.blurStrength,
      if p.edgeBlending.Some? then p.edgeBlending.value else o.edgeBlending,
      if p.maskTightness.Some? then p.maskTightness.value else o.maskTightness)
  }

  /** `{ ...p, ...q }` on two partial option sets. */
  function Combine(p: PartialOptions, q: PartialOptions): PartialOptions
  {
    PartialOptions(
      if q.backgroundMode.Some? then q.backgroundMode else p.backgroundMode,
      if q.blurStrength.Some? then q.blurStrength else p.blurStrength,
      if q.edgeBlending.Some? then q.edgeBlending else p.edgeBlending,
      if q.maskTightness.Some? then q.maskTightness else p.maskTightness)
  }

  /** Keys given win, keys not given keep their value, and merging is idempotent. */
  lemma MergeProperties(o: CompositeOptions, p: PartialOptions)
    ensures Merge(o, NoOptions) == o
    ensures Merge(Merge(o, p), p) == Merge(o, p)
    ensures p.backgroundMode.Some? ==> Merge(o, p).backgroundMode == p.backgroundMode.value
    ensures p.backgroundMode.None? ==> Merge(o, p).backgroundMode == o.backgroundMode
    ensures p.blurStrength.Some? ==> Merge(o, p).blurStrength == p.blurStrength.value
    ensures p.blurStrength.None? ==> Merge(o, p).blurStrength == o.blurStrength
    ensures p.edgeBlending.Some? ==> Merge(o, p).edgeBlending == p.edgeBlending.value
    ensures p.edgeBlending.None? ==> Merge(o, p).edgeBlending == o.edgeBlending
    ensures p.maskTightness.Some? ==> Merge(o, p).maskTightness == p.maskTightness.value
    ensures p.maskTightness.None? ==> Merge(o, p).maskTightness == o.maskTightness
  {
  }

  /** Two `setOptions` calls in a row act as one call with the combined options. */
  lemma MergeTwice(o: CompositeOptions, p: PartialOptions, q: PartialOptions)
    ensures Merge(Merge(o, p), q) == Merge(o, Combine(p, q))
  {
  }

  // ---------------------------------------------------------------- radii

  /** `edgeBlending || 0.1`: an edge blending of 0 falls back to 0.1. */
  function EdgeStrength(edgeBlending: real): (s: real)
    ensures edgeBlending != 0.0 ==> s == edgeBlending
    ensures s != 0.0
  {
    if edgeBlending == 0.0 then 0.1 else edgeBlending
  }

  /** Feather blur radius `max(1, round(strength * 10))` in pixels. */
  function FeatherRadius(strength: real): (r: nat)
    ensures r >= 1
    ensures strength <= 1.0 ==> r <= 10
    ensures strength >= 0.05 ==> r == Round(strength * 10.0)
  {
    Max(1, Round(strength * 10.0))
  }

  /** Background blur radius `max(1, round((blurStrength || 50) / 5))` in pixels:
      a blur strength of 0 falls back to 50, i.e. radius 10. */
  function BlurRadius(blurStrength: real): (r: nat)
    ensures r >= 1
    ensures blurStrength == 0.0 ==> r == 10
    ensures blurStrength <= 50.0 ==> r <= 10
    ensures blurStrength >= 2.5 ==> r == Round(blurStrength / 5.0)
  {
    var strength := if blurStrength == 0.0 then 50.0 else blurStrength;
    Max(1, Round(strength / 5.0))
  }

  /** A larger strength never gives a smaller feather radius. */
  lemma FeatherRadiusMonotone(s1: real, s2: real)
    requires s1 <= s2
    ensures FeatherRadius(s1) <= FeatherRadius(s2)
  {
    RoundMonotone(s1 * 10.0, s2 * 10.0);
  }

  /** Away from the fallback at 0, a larger strength never gives a smaller blur radius. */
  lemma BlurRadiusMonotone(s1: real, s2: real)
    requires 0.0 < s1 <= s2
    ensures BlurRadius(s1) <= BlurRadius(s2)
  {
    RoundMonotone(s1 / 5.0, s2 / 5.0);
  }

  // ---------------------------------------------------------------- browser calls

  /** The canvas blur: pixels of a w x h image drawn through `filter = blur(r px)` and
      read back with `getImageData`, which returns w x h pixels. */
  type BlurFilter = (seq<byte>, nat, nat, nat) -> seq<byte>

  ghost predicate BlurShape(blur: BlurFilter)
  {
    forall s: seq<byte>, w: nat, h: nat, r: nat :: |blur(s, w, h, r)| == 4 * (w * h)
  }

  /** The background draw: `getImageData(0, 0, w, h)` after the image is drawn at the
      given rectangle of the output canvas. */
  type BackgroundDraw = (BackgroundImage, Rect, nat, nat) -> seq<byte>

  ghost predicate DrawShape(draw: BackgroundDraw)
  {
    forall img: BackgroundImage, rect: Rect, w: nat, h: nat :: |draw(img, rect, w, h)| == 4 * (w * h)
  }

  /** A loaded background image. */
  datatype BackgroundImage = BackgroundImage(width: nat, height: nat, pixels: seq<byte>)
  {
    predicate Loaded() {
      width >= 1 && height >= 1
    }
  }

  /** The rectangle `drawBackground(width, height)` draws the image into. */
  function CoverRect(img: BackgroundImage, width: nat, height: nat): (r: Rect)
    requires img.Loaded() && width >= 1 && height >= 1
    ensures Covers(r, width as real, height as real)
    ensures KeepsAspect(r, img.width as real, img.height as real)
    ensures Centred(r, width as real, height as real)
  {
    Cover(img.width as real, img.height as real, width as real, height as real)
  }

  // ---------------------------------------------------------------- compose

  /** The mask after `tightenMask` (CopyBorder erosion) and `featherMask`. */
  function ProcessedMask(o: CompositeOptions, m: Raster, blur: BlurFilter): (r: seq<byte>)
    requires m.Valid() && BlurShape(blur)
    ensures |r| == |m.pixels|
  {
    var tightened := TightenedBy(m.pixels, m.width, m.height, o.maskTightness, CopyBorder);
    blur(tightened, m.width, m.height, FeatherRadius(EdgeStrength(o.edgeBlending)))
  }

  /** The pixels `compose(frame, mask)` returns, given the options and the background
      image: the frame itself, or the frame blended with the blurred frame or the
      drawn background by the processed mask. */
  function Composed(o: CompositeOptions, image: Option<BackgroundImage>, f: Raster, m: Option<Raster>,
                    blur: BlurFilter, draw: BackgroundDraw): (r: seq<byte>)
    requires f.Valid() && (m.Some? ==> m.value.Valid()) && BlurShape(blur) && DrawShape(draw)
    requires image.Some? ==> image.value.Loaded()
    ensures |r| == |f.pixels|
  {
    if o.backgroundMode == NoBackground || m.None? then f.pixels
    else
      var mask := ProcessedMask(o, m.value, blur);
      if o.backgroundMode == Blur then
        Blended(f.pixels, mask, blur(f.pixels, f.width, f.height, BlurRadius(o.blurStrength)))
      else if image.Some? then
        Blended(f.pixels, mask, draw(image.value, CoverRect(image.value, f.width, f.height), f.width, f.height))
      else f.pixels
  }

  /** Mode `none`, a missing mask, and replace mode without a background image all pass
      the frame through unchanged. */
  lemma ComposedPassthrough(o: CompositeOptions, image: Option<BackgroundImage>, f: Raster, m: Option<Raster>,
                            blur: BlurFilter, draw: BackgroundDraw)
    requires f.Valid() && (m.Some? ==> m.value.Valid()) && BlurShape(blur) && DrawShape(draw)
    requires image.Some? ==> image.value.Loaded()
    requires o.backgroundMode == NoBackground || m.None? || (o.backgroundMode == Replace && image.None?)
    ensures Composed(o, image, f, m, blur, draw) == f.pixels
  {
  }

  /** The background `compose` blends the frame with: the blurred frame in blur mode,
      the cover-fitted image otherwise. */
  function BlendBackground(o: CompositeOptions, image: Option<BackgroundImage>, f: Raster,
                           blur: BlurFilter, draw: BackgroundDraw): (b: seq<byte>)
    requires f.Valid() && BlurShape(blur) && DrawShape(draw)
    requires image.Some? ==> image.value.Loaded()
    requires o.backgroundMode == Blur || image.Some?
    ensures |b| == |f.pixels|
  {
    if o.backgroundMode == Blur then blur(f.pixels, f.width, f.height, BlurRadius(o.blurStrength))
    else draw(image.value, CoverRect(image.value, f.width, f.height), f.width, f.height)
  }

  /** Whenever the frame is blended, it is blended with BlendBackground by the
      processed mask. */
  lemma ComposedIsBlend(o: CompositeOptions, image: Option<BackgroundImage>, f: Raster, m: Option<Raster>,
                        blur: BlurFilter, draw: BackgroundDraw)
    requires f.Valid() && (m.Some? ==> m.value.Valid()) && BlurShape(blur) && DrawShape(draw)
    requires image.Some? ==> image.value.Loaded()
    requires m.Some? && (o.backgroundMode == Blur || (o.backgroundMode == Replace && image.Some?))
    ensures Composed(o, image, f, m, blur, draw) ==
      Blended(f.pixels, ProcessedMask(o, m.value, blur), BlendBackground(o, image, f, blur, draw))
  {
  }

  /** Whenever the frame is blended (blur mode with a mask, or replace mode with a mask
      and a background image), every output pixel is opaque. */
  lemma ComposedBlendOpaque(o: CompositeOptions, image: Option<BackgroundImage>, f: Raster, m: Option<Raster>,
                            blur: BlurFilter, draw: BackgroundDraw)
    requires f.Valid() && (m.Some? ==> m.value.Valid()) && BlurShape(blur) && DrawShape(draw)
    requires image.Some? ==> image.value.Loaded()
    requires m.Some? && (o.backgroundMode == Blur || (o.backgroundMode == Replace && image.Some?))
    ensures Opaque(Composed(o, image, f, m, blur, draw))
  {
    var mask := ProcessedMask(o, m.value, blur);
    var b := BlendBackground(o, image, f, blur, draw);
    ComposedIsBlend(o, image, f, m, blur, draw);
    BlendedOpaque(f.pixels, mask, b);
  }

  /** Per pixel of a blended frame: where the processed mask reaches, each colour byte
      lies between the frame's and the background's, equals the frame's under mask 255
      and the background's under mask 0; past the end of the mask the pixel is black. */
  lemma ComposedBlendPixel(o: CompositeOptions, image: Option<BackgroundImage>, f: Raster, m: Option<Raster>,
                           blur: BlurFilter, draw: BackgroundDraw, p: nat, c: nat)
    requires f.Valid() && (m.Some? ==> m.value.Valid()) && BlurShape(blur) && DrawShape(draw)
    requires image.Some? ==> image.value.Loaded()
    requires m.Some? && (o.backgroundMode == Blur || (o.backgroundMode == Replace && image.Some?))
    requires p < f.width * f.height && c < 3
    ensures var r, b := Composed(o, image, f, m, blur, draw), BlendBackground(o, image, f, blur, draw);
      var mask := ProcessedMask(o, m.value, blur);
      && (4 * p < |mask| ==>
            && Min(f.pixels[4 * p + c], b[4 * p + c]) <= r[4 * p + c] <= Max(f.pixels[4 * p + c], b[4 * p + c])
            && (mask[4 * p] == 255 ==> r[4 * p + c] == f.pixels[4 * p + c])
            && (mask[4 * p] == 0 ==> r[4 * p + c] == b[4 * p + c]))
      && (4 * p >= |mask| ==> r[4 * p + c] == 0)
  {
    var mask := ProcessedMask(o, m.value, blur);
    var b := BlendBackground(o, image, f, blur, draw);
    ComposedIsBlend(o, image, f, m, blur, draw);
    if 4 * p < |mask| {
      BlendedPixel(f.pixels, mask, b, p, c);
    } else {
      BlendBeyondMask(f.pixels, mask, b, p);
    }
  }

  /** The compositor service. */
  class CanvasCompositor {
    /** An output canvas has been set. */
    var hasOutputCanvas: bool
    /** Its 2D context was obtained. */
    var hasContext: bool
    var backgroundImage: Option<BackgroundImage>
    var options: CompositeOptions

    predicate Valid()
      reads this
    {
      backgroundImage.Some? ==> backgroundImage.value.Loaded()
    }

    /** `new CanvasCompositor(options)`: the defaults overridden by the given options. */
    constructor (p: PartialOptions)
      ensures Valid() && options == Merge(DefaultOptions, p)
      ensures !hasOutputCanvas && !hasContext && backgroundImage.None?
    {
      hasOutputCanvas, hasContext := false, false;
      backgroundImage := None;
      options := Merge(DefaultOptions, p);
    }

    /** `setOutputCanvas(canvas)`: the canvas is kept even when it yields no 2D context,
        in which case the call throws. */
    method SetOutputCanvas(contextAvailable: bool) returns (r: Result<()>)
      modifies this
      ensures hasOutputCanvas && hasContext == contextAvailable
      ensures r.Failure? <==> !contextAvailable
      ensures r.Failure? ==> r.error == "Failed to get 2D context from canvas"
      ensures backgroundImage == old(backgroundImage) && options == old(options)
    {
      hasOutputCanvas := true;
      hasContext := contextAvailable;
      if !hasContext {
        return Failure("Failed to get 2D context from canvas");
      }
      return Success(());
    }

    method SetBackgroundImage(image: BackgroundImage)
      requires image.Loaded()
      modifies this
      ensures Valid()
      ensures backgroundImage == Some(image)
      ensures hasOutputCanvas == old(hasOutputCanvas) && hasContext == old(hasContext)
      ensures options == old(options)
    {
      backgroundImage := Some(image);
    }

    /** `setOptions(options)`: merges the given keys into the current options. */
    method SetOptions(p: PartialOptions)
      modifies this
      ensures options == Merge(old(options), p)
      ensures p.backgroundMode.Some? ==> GetBackgroundMode() == p.backgroundMode.value
      ensures hasOutputCanvas == old(hasOutputCanvas) && hasContext == old(hasContext)
      ensures backgroundImage == old(backgroundImage)
    {
      options := Merge(options, p);
    }

    function GetBackgroundMode(): BackgroundMode
      reads this
    {
      options.backgroundMode
    }

    /** `featherMask(mask, strength)`: the mask blurred by `FeatherRadius(strength)`,
        read back at the mask's size. */
    method FeatherMask(mask: ImageData, strength: real, blur: BlurFilter) returns (r: ImageData)
      requires mask.Valid() && BlurShape(blur)
      ensures fresh(r) && fresh(r.data) && r.Valid()
      ensures r.width == mask.width && r.height == mask.height
      ensures r.data[..] == blur(mask.data[..], mask.width, mask.height, FeatherRadius(strength))
    {
      var blurAmount := FeatherRadius(strength);
      r := new ImageData.Of(mask.width, mask.height, blur(mask.data[..], mask.width, mask.height, blurAmount));
    }

    /** `composeWithBlur(frame, mask)`: throws without a 2D context; otherwise blends the
        frame with its blurred copy. */
    method ComposeWithBlur(frame: ImageData, mask: ImageData, blur: BlurFilter) returns (r: Result<ImageData>)
      requires frame.Valid() && BlurShape(blur)
      ensures !hasContext <==> r.Failure?
      ensures r.Failure? ==> r.error == "Canvas context not initialized"
      ensures r.Success? ==> fresh(r.value) && fresh(r.value.data) && r.value.Valid()
      ensures r.Success? ==> r.value.width == frame.width && r.value.height == frame.height
      ensures r.Success? ==>
        r.value.data[..] == Blended(frame.data[..], mask.data[..],
          blur(frame.data[..], frame.width, frame.height, BlurRadius(options.blurStrength)))
    {
      if !hasContext {
        return Failure("Canvas context not initialized");
      }
      var blurAmount := BlurRadius(options.blurStrength);
      var blurredFrame := blur(frame.data[..], frame.width, frame.height, blurAmount);
      var output := Blend(frame, mask, blurredFrame);
      return Success(output);
    }

    /** `compose(frame, mask)`: throws unless an output canvas with a 2D context is set;
        otherwise a fresh buffer holding `Composed`. */
    method Compose(frame: ImageData, mask: Option<ImageData>, blur: BlurFilter, draw: BackgroundDraw)
      returns (r: Result<ImageData>)
      requires Valid() && frame.Valid() && (mask.Some? ==> mask.value.Valid())
      requires BlurShape(blur) && DrawShape(draw)
      ensures !(hasOutputCanvas && hasContext) <==> r.Failure?
      ensures r.Failure? ==> r.error == "Output canvas not initialized"
      ensures r.Success? ==> fresh(r.value) && fresh(r.value.data) && r.value.Valid()
      ensures r.Success? ==> r.value.width == frame.width && r.value.height == frame.height
      ensures r.Success? && mask.None? ==> r.value.data[..] == frame.data[..]
      ensures r.Success? && mask.Some? ==>
        r.value.data[..] == Composed(options, backgroundImage, frame.Snapshot(), Some(mask.value.Snapshot()), blur, draw)
    {
      if !hasOutputCanvas || !hasContext {
        return Failure("Output canvas not initialized");
      }
      var width, height := frame.width, frame.height;
      var output := new ImageData(width, height);
      if options.backgroundMode == NoBackground || mask.None? {
        forall i | 0 <= i < output.data.Length {
          output.data[i] := frame.data[i];
        }
        assert output.data[..] == frame.data[..];
        return Success(output);
      }
      var m := mask.value;
      ghost var mv := m.Snapshot();
      var processedMask := TightenMask(m, options.maskTightness, CopyBorder);
      processedMask := FeatherMask(processedMask, EdgeStrength(options.edgeBlending), blur);
      assert processedMask.data[..] == ProcessedMask(options, mv, blur);
      if options.backgroundMode == Blur {
        r := ComposeWithBlur(frame, processedMask, blur);
        return;
      }
      if options.backgroundMode == Replace && backgroundImage.Some? {
        var image := backgroundImage.value;
        var bgData := draw(image, CoverRect(image, width, height), width, height);
        output := Blend(frame, processedMask, bgData);
      } else {
        forall i | 0 <= i < output.data.Length {
          output.data[i] := frame.data[i];
        }
        assert output.data[..] == frame.data[..];
      }
      return Success(output);
    }
  }
}
