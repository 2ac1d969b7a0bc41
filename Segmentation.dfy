/** The segmentation engine: the initialisation guard, the single-request mailbox
    around the segmentation model, and the conversion of the model's float mask into
    a grayscale RGBA buffer. The model itself, script loading and the timers are
    outside the model: their outcomes are parameters, and the model's reply is an
    explicit `HandleResults` call between `Segment` and `FinishSegment`. */
module Segmentation {
  import opened Wrappers
  import opened Pixels

  /** `MODEL_SELECTION.LOW`: the general model. */
  const MODEL_LOW := 0
  /** `MODEL_SELECTION.HIGH`: the landscape model. */
  const MODEL_HIGH := 1

  /** `getModelType(quality)`: 'high' selects the landscape model; 'low', 'medium' and
      anything else select the general one. */
  function GetModelType(quality: string): (m: int)
    ensures m == MODEL_HIGH <==> quality == "high"
    ensures m == MODEL_LOW <==> quality != "high"
  {
    match quality
    case "low" => MODEL_LOW
    case "medium" => MODEL_LOW
    case "high" => MODEL_HIGH
    case _ => MODEL_LOW
  }

  /** The `segmentationMask` of a model result: its size and its values, one float per
      pixel, nominally between 0 and 1. */
  datatype RawMask = RawMask(width: nat, height: nat, values: seq<real>)

  /** What `segment` resolves to. */
  datatype SegmentationResult = SegmentationResult(mask: ImageData, width: nat, height: nat)

  /** How far one `segment` call gets before it waits: answered at once, or a request
      sent and the caller now waiting for the model's reply. */
  datatype SegmentStep = Answered(result: Result<SegmentationResult>) | Pending

  // ---------------------------------------------------------------- mask conversion

  /** The byte stored for a mask value: `value * 255` in a Uint8ClampedArray. */
  function MaskByte(value: real): (b: byte)
    ensures 0.0 <= value <= 1.0 ==> value * 255.0 - 0.5 <= b as real <= value * 255.0 + 0.5
    ensures value <= 0.0 ==> b == 0
    ensures value >= 1.0 ==> b == 255
  {
    ToByte(value * 255.0)
  }

  /** The four bytes written for mask value i: gray, opaque. */
  function MaskPixelBytes(values: seq<real>, i: nat): (r: seq<byte>)
    requires i < |values|
    ensures |r| == 4
  {
    var v := MaskByte(values[i]);
    [v, v, v, OPAQUE]
  }

  /** The bytes written for the first n mask values. */
  function ConvertedPrefix(values: seq<real>, n: nat): (r: seq<byte>)
    requires n <= |values|
    ensures |r| == 4 * n
  {
    if n == 0 then [] else ConvertedPrefix(values, n - 1) + MaskPixelBytes(values, n - 1)
  }

  function Zeros(n: nat): (r: seq<byte>)
    ensures |r| == n && forall i :: 0 <= i < n ==> r[i] == 0
  {
    seq(n, _ => 0)
  }

  /** How many pixels the conversion loop writes: one per value, but writes past the
      end of the buffer are dropped. */
  function WrittenPixels(count: nat, pixels: nat): (k: nat)
    ensures k <= count && k <= pixels
    ensures k == count || k == pixels
  {
    if count <= pixels then count else pixels
  }

  /** The buffer `handleResults` builds from a mask: the converted values, then zeros
      (a fresh ImageData) for pixels beyond the last value. */
  function Converted(raw: RawMask): (r: seq<byte>)
    requires raw.width >= 1 && raw.height >= 1
    ensures Shaped(r, raw.width, raw.height)
  {
    var k := WrittenPixels(|raw.values|, raw.width * raw.height);
    ConvertedPrefix(raw.values, k) + Zeros(4 * (raw.width * raw.height - k))
  }

  lemma {:induction false} ConvertedPrefixAt(values: seq<real>, n: nat, q: nat, c: nat)
    requires n <= |values| && q < n && c < 4
    ensures ConvertedPrefix(values, n)[4 * q + c] == MaskPixelBytes(values, q)[c]
  {
    if q < n - 1 {
      ConvertedPrefixAt(values, n - 1, q, c);
    }
  }

  /** Pixel p of the converted mask: gray and opaque with the stored value where a
      mask value reaches it, all four bytes zero where none does. */
  lemma ConvertedAt(raw: RawMask, p: nat)
    requires raw.width >= 1 && raw.height >= 1 && p < raw.width * raw.height
    ensures var r := Converted(raw);
      && (p < |raw.values| ==> PixelIs(r, p, MaskByte(raw.values[p])))
      && (p >= |raw.values| ==> r[4 * p] == 0 && r[4 * p + 1] == 0 && r[4 * p + 2] == 0 && r[4 * p + 3] == 0)
  {
    var k := WrittenPixels(|raw.values|, raw.width * raw.height);
    var r := Converted(raw);
    if p < |raw.values| {
      assert p < k;
      ConvertedPrefixAt(raw.values, k, p, 0);
      ConvertedPrefixAt(raw.values, k, p, 1);
      ConvertedPrefixAt(raw.values, k, p, 2);
      ConvertedPrefixAt(raw.values, k, p, 3);
    } else {
      assert k == |raw.values| && 4 * p >= 4 * k;
    }
  }

  /** Every pixel of a converted mask has R = G = B. */
  lemma ConvertedGray(raw: RawMask)
    requires raw.width >= 1 && raw.height >= 1
    ensures Gray(Converted(raw))
  {
    var r := Converted(raw);
    forall p: nat | p < |r| / 4 ensures GrayAt(r, p) {
      ConvertedAt(raw, p);
    }
  }

  /** A mask with a value for every pixel converts to an opaque buffer. */
  lemma ConvertedOpaque(raw: RawMask)
    requires raw.width >= 1 && raw.height >= 1 && |raw.values| >= raw.width * raw.height
    ensures Opaque(Converted(raw))
  {
    var r := Converted(raw);
    forall p: nat | p < |r| / 4 ensures AlphaAt(r, p) == OPAQUE {
      ConvertedAt(raw, p);
    }
  }

  /** Writing four bytes over the first four of a run of zeros. */
  lemma WriteOverZeros(pre: seq<byte>, z: nat, v0: byte, v1: byte, v2: byte, v3: byte)
    requires z >= 4
    ensures var i := |pre|;
      (pre + Zeros(z))[i := v0][i + 1 := v1][i + 2 := v2][i + 3 := v3] == (pre + [v0, v1, v2, v3]) + Zeros(z - 4)
  {
    var i := |pre|;
    var a := (pre + Zeros(z))[i := v0][i + 1 := v1][i + 2 := v2][i + 3 := v3];
    var b := (pre + [v0, v1, v2, v3]) + Zeros(z - 4);
    assert |a| == |b|;
    forall j | 0 <= j < |a| ensures a[j] == b[j] {
      if j >= i + 4 {
        assert a[j] == Zeros(z)[j - i];
        assert b[j] == Zeros(z - 4)[j - i - 4];
      }
    }
  }

  /** The conversion loop of `handleResults`: a fresh buffer of the mask's size; value i
      is stored, times 255, into R, G and B of pixel i, with alpha 255. */
  method ConvertMask(raw: RawMask) returns (imageData: ImageData)
    requires raw.width >= 1 && raw.height >= 1
    ensures fresh(imageData) && fresh(imageData.data) && imageData.Valid()
    ensures imageData.width == raw.width && imageData.height == raw.height
    ensures imageData.data[..] == Converted(raw)
  {
    imageData := new ImageData(raw.width, raw.height);
    var pixels := raw.width * raw.height;
    assert imageData.data[..] == ConvertedPrefix(raw.values, 0) + Zeros(4 * pixels);
    var i := 0;
    while i < |raw.values|
      invariant 0 <= i <= |raw.values|
      invariant imageData.data[..] ==
        ConvertedPrefix(raw.values, WrittenPixels(i, pixels)) + Zeros(4 * (pixels - WrittenPixels(i, pixels)))
    {
      var idx := i * 4;
      // a write past the end of a typed array is dropped; the length is a multiple
      // of 4, so the four writes of a pixel either all land or all are dropped
      if idx < imageData.data.Length {
        ConvertPixel(raw, imageData, i);
      }
      i := i + 1;
    }
  }

  /** One iteration of the conversion loop that lands inside the buffer. */
  method ConvertPixel(raw: RawMask, imageData: ImageData, i: nat)
    requires imageData.Valid() && i < |raw.values| && 4 * i < imageData.data.Length
    requires imageData.data[..] == ConvertedPrefix(raw.values, i) + Zeros(imageData.data.Length - 4 * i)
    modifies imageData.data
    ensures imageData.data[..] == ConvertedPrefix(raw.values, i + 1) + Zeros(imageData.data.Length - 4 * (i + 1))
  {
    var value := MaskByte(raw.values[i]);
    var idx := i * 4;
    ghost var pre := ConvertedPrefix(raw.values, i);
    ghost var d: seq<byte> := imageData.data[..];
    imageData.data[idx] := value;
    imageData.data[idx + 1] := value;
    imageData.data[idx + 2] := value;
    imageData.data[idx + 3] := 255;
    assert imageData.data[..] == d[idx := value][idx + 1 := value][idx + 2 := value][idx + 3 := 255];
    WriteOverZeros(pre, imageData.data.Length - 4 * i, value, value, value, 255);
    assert pre + [value, value, value, 255] == ConvertedPrefix(raw.values, i + 1);
  }

  // ---------------------------------------------------------------- the engine

  class SegmentationEngine {
    /** The segmentation model exists (`model` is not null). */
    var hasModel: bool
    /** The model's `modelSelection` option. */
    var modelSelection: int
    var quality: string
    var isInitialized: bool
    var isProcessing: bool
    var lastMask: Option<ImageData>
    var scriptLoaded: bool
    /** Requests sent to the model so far. */
    ghost var requestsSent: nat

    predicate Valid()
      reads this
    {
      (lastMask.Some? ==> lastMask.value.Valid()) && (isInitialized ==> hasModel)
    }

    constructor ()
      ensures Valid()
      ensures !hasModel && quality == "medium" && !isInitialized && !isProcessing
      ensures lastMask.None? && !scriptLoaded && requestsSent == 0
    {
      hasModel, modelSelection, quality := false, MODEL_LOW, "medium";
      isInitialized, isProcessing, lastMask, scriptLoaded := false, false, None, false;
      requestsSent := 0;
    }

    /** `isReady()`. */
    function IsReady(): bool
      reads this
    {
      isInitialized
    }

    /** `initialize(quality)`: a no-op once initialized. Otherwise it records the
        quality, loads the script unless it was loaded before, waits for the library,
        creates the model with `getModelType(quality)` and initializes it; the first
        failure is rethrown. `scriptLoads`, `libraryAppears` and `modelInit` are the
        outcomes of those browser steps. */
    method Initialize(q: string, scriptLoads: bool, libraryAppears: bool, modelInit: Result<()>)
      returns (r: Result<()>)
      requires Valid()
      modifies this
      ensures Valid()
      ensures old(isInitialized) ==>
        && r.Success? && quality == old(quality) && hasModel == old(hasModel)
        && modelSelection == old(modelSelection) && scriptLoaded == old(scriptLoaded) && isInitialized
      ensures !old(isInitialized) ==> quality == q
      ensures !old(isInitialized) ==>
        (r.Success? <==> (old(scriptLoaded) || scriptLoads) && libraryAppears && modelInit.Success?)
      ensures !old(isInitialized) && !old(scriptLoaded) && !scriptLoads ==>
        r == Failure("Failed to load MediaPipe script")
      ensures !old(isInitialized) && (old(scriptLoaded) || scriptLoads) && !libraryAppears ==>
        r == Failure("SelfieSegmentation not available after timeout")
      ensures !old(isInitialized) && (old(scriptLoaded) || scriptLoads) && libraryAppears ==>
        hasModel && modelSelection == GetModelType(q) && r == modelInit
      ensures isInitialized <==> r.Success?
      ensures isProcessing == old(isProcessing) && lastMask == old(lastMask)
      ensures requestsSent == old(requestsSent)
    {
      if isInitialized {
        return Success(());
      }
      quality := q;
      if !scriptLoaded {
        if !scriptLoads {
          return Failure("Failed to load MediaPipe script");
        }
        scriptLoaded := true;
      }
      if !libraryAppears {
        return Failure("SelfieSegmentation not available after timeout");
      }
      hasModel := true;
      modelSelection := GetModelType(q);
      r := modelInit;
      if r.Success? {
        isInitialized := true;
      }
    }

    /** The part of `segment(frame)` before it waits: throws unless initialized with a
        model; while a request is in flight it answers with the last mask (throwing if
        there is none) and sends nothing; otherwise it marks a request in flight and
        sends the frame. A failed send ends the call and clears the flag (`finally`).
        The frame's pixels only travel to the model, so they are not a parameter. */
    method Segment(send: Result<()>) returns (r: SegmentStep)
      modifies this
      ensures !old(isInitialized) || !old(hasModel) ==>
        r == Answered(Failure("SegmentationEngine not initialized")) && isProcessing == old(isProcessing)
        && requestsSent == old(requestsSent)
      ensures old(isInitialized) && old(hasModel) && old(isProcessing) ==>
        && isProcessing && requestsSent == old(requestsSent)
        && (lastMask.Some? ==> r == Answered(Success(SegmentationResult(lastMask.value, lastMask.value.width, lastMask.value.height))))
        && (lastMask.None? ==> r == Answered(Failure("Segmentation in progress and no previous mask available")))
      ensures old(isInitialized) && old(hasModel) && !old(isProcessing) ==>
        && requestsSent == old(requestsSent) + 1
        && (send.Success? ==> r == Pending && isProcessing)
        && (send.Failure? ==> r == Answered(Failure(send.error)) && !isProcessing)
      ensures lastMask == old(lastMask) && isInitialized == old(isInitialized) && hasModel == old(hasModel)
      ensures quality == old(quality) && modelSelection == old(modelSelection) && scriptLoaded == old(scriptLoaded)
    {
      if !isInitialized || !hasModel {
        return Answered(Failure("SegmentationEngine not initialized"));
      }
      if isProcessing {
        if lastMask.Some? {
          var m := lastMask.value;
          return Answered(Success(SegmentationResult(m, m.width, m.height)));
        }
        return Answered(Failure("Segmentation in progress and no previous mask available"));
      }
      isProcessing := true;
      requestsSent := requestsSent + 1;
      if send.Failure? {
        isProcessing := false;
        return Answered(Failure(send.error));
      }
      return Pending;
    }

    /** The part of `segment` after the wait: the wait ends as soon as a mask is
        present (or after its timeout), and the call then answers with the current
        last mask, or throws when there is none; `finally` clears the in-flight flag. */
    method FinishSegment() returns (r: Result<SegmentationResult>)
      modifies this
      ensures !isProcessing
      ensures r.Failure? <==> lastMask.None?
      ensures r.Failure? ==> r.error == "No segmentation result received"
      ensures r.Success? ==> r.value == SegmentationResult(lastMask.value, lastMask.value.width, lastMask.value.height)
      ensures lastMask == old(lastMask) && isInitialized == old(isInitialized) && hasModel == old(hasModel)
      ensures quality == old(quality) && modelSelection == old(modelSelection) && scriptLoaded == old(scriptLoaded)
      ensures requestsSent == old(requestsSent)
    {
      isProcessing := false;
      if lastMask.None? {
        return Failure("No segmentation result received");
      }
      var m := lastMask.value;
      return Success(SegmentationResult(m, m.width, m.height));
    }

    /** `handleResults(results)`, the model's reply: results without a mask are ignored,
        and so is a mask of zero width or height (creating its ImageData throws);
        otherwise the converted mask becomes the last mask. */
    method HandleResults(results: Option<RawMask>)
      requires Valid()
      modifies this
      ensures Valid()
      ensures results.None? || results.value.width == 0 || results.value.height == 0 ==>
        lastMask == old(lastMask)
      ensures results.Some? && results.value.width >= 1 && results.value.height >= 1 ==>
        && lastMask.Some? && fresh(lastMask.value) && fresh(lastMask.value.data)
        && lastMask.value.width == results.value.width && lastMask.value.height == results.value.height
        && lastMask.value.data[..] == Converted(results.value)
      ensures isProcessing == old(isProcessing) && isInitialized == old(isInitialized) && hasModel == old(hasModel)
      ensures quality == old(quality) && modelSelection == old(modelSelection) && scriptLoaded == old(scriptLoaded)
      ensures requestsSent == old(requestsSent)
    {
      if results.None? {
        return;
      }
      var mask := results.value;
      if mask.width == 0 || mask.height == 0 {
        return;
      }
      var imageData := ConvertMask(mask);
      lastMask := Some(imageData);
    }

    /** One whole `segment(frame)` call, with `reply` the model's results if they arrive
        while the call waits (None when they do not). A call that finds no request in
        flight leaves none in flight, whatever happens; a call that finds one in flight
        changes nothing. */
    method SegmentFrame(send: Result<()>, reply: Option<Option<RawMask>>) returns (r: Result<SegmentationResult>)
      requires Valid()
      modifies this
      ensures Valid()
      ensures !old(isProcessing) ==> !isProcessing
      ensures old(isProcessing) ==> isProcessing && lastMask == old(lastMask) && requestsSent == old(requestsSent)
      ensures requestsSent <= old(requestsSent) + 1
      ensures r.Success? ==> lastMask.Some? && r.value.mask == lastMask.value
      ensures !old(isInitialized) || !old(hasModel) ==> r == Failure("SegmentationEngine not initialized")
      ensures isInitialized == old(isInitialized) && hasModel == old(hasModel)
      ensures quality == old(quality) && modelSelection == old(modelSelection) && scriptLoaded == old(scriptLoaded)
    {
      var step := Segment(send);
      if step.Answered? {
        return step.result;
      }
      if reply.Some? {
        HandleResults(reply.value);
      }
      r := FinishSegment();
    }

    /** `setQuality(quality)`: ignored without a model; otherwise the model is
        reconfigured with `getModelType(quality)`. */
    method SetQuality(q: string)
      modifies this
      ensures !old(hasModel) ==> quality == old(quality) && modelSelection == old(modelSelection)
      ensures old(hasModel) ==> quality == q && modelSelection == GetModelType(q)
      ensures hasModel == old(hasModel) && isInitialized == old(isInitialized)
      ensures isProcessing == old(isProcessing) && lastMask == old(lastMask) && scriptLoaded == old(scriptLoaded)
      ensures requestsSent == old(requestsSent)
    {
      if !hasModel {
        return;
      }
      quality := q;
      modelSelection := GetModelType(q);
    }

    /** `dispose()`: closes and drops the model, clears the initialized flag and the last
        mask; a request in flight stays marked as such. */
    method Dispose()
      modifies this
      ensures !hasModel && !isInitialized && lastMask.None? && !IsReady()
      ensures isProcessing == old(isProcessing) && quality == old(quality) && scriptLoaded == old(scriptLoaded)
      ensures modelSelection == old(modelSelection) && requestsSent == old(requestsSent)
    {
      hasModel := false;
      isInitialized := false;
      lastMask := None;
    }
  }

  /** After `dispose`, `segment` throws until the engine is initialized again. */
  method DisposeThenSegment(e: SegmentationEngine, send: Result<()>) returns (r: SegmentStep)
    modifies e
    ensures r == Answered(Failure("SegmentationEngine not initialized"))
    ensures e.requestsSent == old(e.requestsSent)
  {
    e.Dispose();
    r := e.Segment(send);
  }
}
