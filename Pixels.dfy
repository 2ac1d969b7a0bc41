/** Pixel buffers and the byte arithmetic of the browser's ImageData.
    An ImageData holds width*height RGBA pixels in a Uint8ClampedArray:
    every store clamps to 0..255 and rounds half to even. */
module Pixels {

  /** One element of a Uint8ClampedArray. */
  type byte = x: int | 0 <= x < 256

  /** Alpha value the compositor writes into every pixel it produces. */
  const OPAQUE: byte := 255

  /** An RGBA pixel buffer (the browser's ImageData). A fresh one is all zeros. */
  class ImageData {
    const width: nat
    const height: nat
    const data: array<byte>

    predicate Valid() {
      width >= 1 && height >= 1 && data.Length == 4 * (width * height)
    }

    /** `new ImageData(w, h)`: a zero-filled buffer (the browser throws for a zero size). */
    constructor (w: nat, h: nat)
      requires w >= 1 && h >= 1
      ensures Valid() && width == w && height == h && fresh(data)
      ensures forall i :: 0 <= i < data.Length ==> data[i] == 0
    {
      width, height := w, h;
      data := new byte[4 * (w * h)](_ => 0);
    }

    /** The ImageData that `getImageData` returns: a fresh copy of the given pixels. */
    constructor Of(w: nat, h: nat, pixels: seq<byte>)
      requires w >= 1 && h >= 1 && |pixels| == 4 * (w * h)
      ensures Valid() && width == w && height == h && fresh(data)
      ensures data[..] == pixels
    {
      width, height := w, h;
      data := new byte[|pixels|](i requires 0 <= i < |pixels| => pixels[i]);
    }

    /** The buffer's current contents as a value. */
    function Snapshot(): Raster
      reads this, data
    {
      Raster(width, height, data[..])
    }
  }

  /** The contents of an ImageData at one moment. */
  datatype Raster = Raster(width: nat, height: nat, pixels: seq<byte>) {
    predicate Valid() {
      Shaped(pixels, width, height)
    }
  }

  /** A byte buffer holding w*h RGBA pixels. */
  predicate Shaped(s: seq<byte>, w: nat, h: nat)
    ensures Shaped(s, w, h) ==> |s| % 4 == 0 && |s| / 4 == w * h
  {
    w >= 1 && h >= 1 && |s| == 4 * (w * h)
  }

  /** Pixel p has R = G = B. */
  predicate GrayAt(s: seq<byte>, p: nat)
    requires 4 * p + 3 < |s|
  {
    s[4 * p + 1] == s[4 * p] && s[4 * p + 2] == s[4 * p]
  }

  /** Every pixel has R = G = B. */
  predicate Gray(s: seq<byte>) {
    forall p: nat :: p < |s| / 4 ==> GrayAt(s, p)
  }

  /** Every pixel has alpha 255. */
  predicate Opaque(s: seq<byte>) {
    forall p: nat :: p < |s| / 4 ==> AlphaAt(s, p) == OPAQUE
  }

  function AlphaAt(s: seq<byte>, p: nat): byte
    requires 4 * p + 3 < |s|
  {
    s[4 * p + 3]
  }

  /** Pixel p is (v, v, v, 255). */
  predicate PixelIs(s: seq<byte>, p: nat, v: byte)
    requires 4 * p + 3 < |s|
  {
    s[4 * p] == v && s[4 * p + 1] == v && s[4 * p + 2] == v && s[4 * p + 3] == OPAQUE
  }

  /** Every pixel is (v, v, v, 255). */
  predicate Uniform(s: seq<byte>, v: byte) {
    forall p: nat :: p < |s| / 4 ==> PixelIs(s, p, v)
  }

  /** JavaScript's `Math.round`: the nearest integer, halves rounded up. */
  function Round(x: real): (r: int)
    ensures x - 0.5 < r as real <= x + 0.5
  {
    (x + 0.5).Floor
  }

  /** `Math.round` is monotone. */
  lemma RoundMonotone(x: real, y: real)
    requires x <= y
    ensures Round(x) <= Round(y)
  {
    var fx, fy := (x + 0.5).Floor, (y + 0.5).Floor;
    assert fx as real <= x + 0.5 <= y + 0.5 < fy as real + 1.0;
  }

  /** Nearest integer, ties to the even neighbour. */
  function RoundHalfEven(x: real): (r: int)
    ensures x - 0.5 <= r as real <= x + 0.5
    ensures r as real - x == 0.5 || x - r as real == 0.5 ==> r % 2 == 0
  {
    var f := x.Floor;
    var d := x - f as real;
    if d < 0.5 then f
    else if d > 0.5 then f + 1
    else if f % 2 == 0 then f else f + 1
  }

  /** The value a Uint8ClampedArray stores when assigned x. */
  function ToByte(x: real): (r: byte)
    ensures x <= 0.0 ==> r == 0
    ensures x >= 255.0 ==> r == 255
    ensures 0.0 <= x <= 255.0 ==> x - 0.5 <= r as real <= x + 0.5
  {
    if x <= 0.0 then 0
    else if x >= 255.0 then 255
    else RoundHalfEven(x)
  }

  function Min(a: int, b: int): int { if a <= b then a else b }

  function Max(a: int, b: int): int { if a >= b then a else b }

  lemma ToByteExact(k: byte)
    ensures ToByte(k as real) == k
  {
  }

  /** Storing a value that lies between two bytes stores a byte between them. */
  lemma ToByteBetween(x: real, lo: byte, hi: byte)
    requires lo as real <= x <= hi as real
    ensures lo <= ToByte(x) <= hi
  {
  }

  /** The clamped store is monotone. */
  lemma ToByteMonotone(x: real, y: real)
    requires x <= y
    ensures ToByte(x) <= ToByte(y)
  {
    if 0.0 < x && y < 255.0 {
      var fx, fy := x.Floor, y.Floor;
      assert fx <= fy;
    }
  }

  /** Writing four bytes at i extends the first i bytes by exactly those four. */
  lemma AppendPixel(d: seq<byte>, i: nat, v0: byte, v1: byte, v2: byte, v3: byte)
    requires i + 4 <= |d|
    ensures d[i := v0][i + 1 := v1][i + 2 := v2][i + 3 := v3][..i + 4] == d[..i] + [v0, v1, v2, v3]
  {
  }
}
