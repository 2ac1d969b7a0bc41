/** The per-pixel blend of the compositing loops: the frame is mixed with a
    background buffer (the blurred frame or the drawn background image) in the
    proportion given by the red byte of the mask, and every output alpha is 255. */
module Blending {
  import opened Pixels

  /** One colour byte of the blend: `f * m/255 + b * (1 - m/255)` stored in a byte.
      The value is the weighted sum over 255 rounded to the nearest integer; 255 is odd,
      so there is never a tie (BlendChannelIsStore shows this is the clamped store of
      the loop's expression). */
  function BlendChannel(f: byte, b: byte, m: byte): byte
  {
    var w := Weighted(f, b, m);
    WeightedBetween(f, b, m);
    RoundedQuotient(w)
  }

  /** w / 255 rounded to the nearest integer, for 0 <= w <= 255 * 255. */
  function RoundedQuotient(w: int): (r: byte)
    requires 0 <= w <= 255 * 255
    ensures 255 * r - 127 <= w <= 255 * r + 127
  {
    if w % 255 >= 128 then w / 255 + 1 else w / 255
  }

  /** The weighted sum of the frame and background bytes, over the common
      denominator 255 (SourceMix shows it is the loop's expression). */
  function Mix(f: byte, b: byte, m: byte): real
  {
    Weighted(f, b, m) as real / 255.0
  }

  function Weighted(f: byte, b: byte, m: byte): int
  {
    f * m + b * (255 - m)
  }

  /** Mix is the value of the loop's expression `f * (m / 255) + b * (1 - m / 255)`. */
  lemma SourceMix(f: byte, b: byte, m: byte)
    ensures Mix(f, b, m) == f as real * (m as real / 255.0) + b as real * (1.0 - m as real / 255.0)
  {
    var a := m as real / 255.0;
    assert (f * m) as real == f as real * m as real;
    assert (b * (255 - m)) as real == b as real * (255 - m) as real;
    assert f as real * a == f as real * m as real / 255.0;
    assert b as real * (1.0 - a) == b as real * (255 - m) as real / 255.0;
  }

  /** The blended byte is what the Uint8ClampedArray stores for the loop's expression. */
  lemma BlendChannelIsStore(f: byte, b: byte, m: byte)
    ensures BlendChannel(f, b, m) == ToByte(f as real * (m as real / 255.0) + b as real * (1.0 - m as real / 255.0))
  {
    SourceMix(f, b, m);
    WeightedBetween(f, b, m);
    QuotientStore(Weighted(f, b, m));
  }

  /** Storing w / 255 in a byte rounds it to the nearest integer. */
  lemma QuotientStore(w: int)
    requires 0 <= w <= 255 * 255
    ensures ToByte(w as real / 255.0) == RoundedQuotient(w)
  {
    var x := w as real / 255.0;
    var q, r := w / 255, w % 255;
    assert w == 255 * q + r;
    assert x == q as real + r as real / 255.0;
    if 0.0 < x < 255.0 {
      assert x.Floor == q;
    }
  }

  /** The weighted sum lies between 255 times each byte. */
  lemma WeightedBetween(f: byte, b: byte, m: byte)
    ensures Min(f, b) * 255 <= Weighted(f, b, m) <= Max(f, b) * 255
  {
    assert Weighted(f, b, m) == b * 255 + (f - b) * m;
    if f <= b {
      MulBetween(b - f, m);
    } else {
      MulBetween(f - b, m);
    }
  }

  /** A non-negative difference times a byte lies between 0 and 255 times it. */
  lemma MulBetween(d: nat, m: byte)
    ensures 0 <= d * m <= d * 255
  {
    assert d * 255 - d * m == d * (255 - m);
  }

  /** The blend of two bytes lies between them. */
  lemma BlendChannelBetween(f: byte, b: byte, m: byte)
    ensures Min(f, b) <= BlendChannel(f, b, m) <= Max(f, b)
  {
    WeightedBetween(f, b, m);
  }

  /** Under a full mask (255) the blend is the frame byte. */
  lemma BlendChannelFull(f: byte, b: byte)
    ensures BlendChannel(f, b, 255) == f
  {
    assert Weighted(f, b, 255) == f * 255;
  }

  /** Under an empty mask (0) the blend is the background byte. */
  lemma BlendChannelEmpty(f: byte, b: byte)
    ensures BlendChannel(f, b, 0) == b
  {
    assert Weighted(f, b, 0) == b * 255;
  }

  /** A larger mask value moves the blend towards the frame byte. */
  lemma BlendChannelMonotone(f: byte, b: byte, m1: byte, m2: byte)
    requires m1 <= m2 && b <= f
    ensures BlendChannel(f, b, m1) <= BlendChannel(f, b, m2)
  {
    var d: nat, e: nat := f - b, m2 - m1;
    assert Weighted(f, b, m2) - Weighted(f, b, m1) == d * e;
    WeightedBetween(f, b, m1);
    WeightedBetween(f, b, m2);
    RoundedQuotientMonotone(Weighted(f, b, m1), Weighted(f, b, m2));
  }

  lemma RoundedQuotientMonotone(w1: int, w2: int)
    requires 0 <= w1 <= w2 <= 255 * 255
    ensures RoundedQuotient(w1) <= RoundedQuotient(w2)
  {
  }

  /** The four bytes the blend loop writes for pixel p. The mask is read at the red
      byte of the same pixel; past the end of the mask that read is `undefined`, the
      arithmetic gives NaN and the store writes 0. */
  function BlendedPixelBytes(f: seq<byte>, m: seq<byte>, b: seq<byte>, p: nat): (r: seq<byte>)
    requires |b| == |f| && 4 * p + 3 < |f|
    ensures |r| == 4
  {
    var i := 4 * p;
    if i < |m| then
      [BlendChannel(f[i], b[i], m[i]), BlendChannel(f[i + 1], b[i + 1], m[i]),
       BlendChannel(f[i + 2], b[i + 2], m[i]), OPAQUE]
    else [0, 0, 0, OPAQUE]
  }

  /** The first n pixels of the blend. */
  function BlendedPrefix(f: seq<byte>, m: seq<byte>, b: seq<byte>, n: nat): (r: seq<byte>)
    requires |b| == |f| && 4 * n <= |f|
    ensures |r| == 4 * n
  {
    if n == 0 then [] else BlendedPrefix(f, m, b, n - 1) + BlendedPixelBytes(f, m, b, n - 1)
  }

  /** The output of the blend loop over frame f, mask m and background b. */
  function Blended(f: seq<byte>, m: seq<byte>, b: seq<byte>): (r: seq<byte>)
    requires |b| == |f| && |f| % 4 == 0
    ensures |r| == |f|
  {
    BlendedPrefix(f, m, b, |f| / 4)
  }

  lemma {:induction false} BlendedPrefixAt(f: seq<byte>, m: seq<byte>, b: seq<byte>, n: nat, q: nat, c: nat)
    requires |b| == |f| && 4 * n <= |f| && q < n && c < 4
    ensures BlendedPrefix(f, m, b, n)[4 * q + c] == BlendedPixelBytes(f, m, b, q)[c]
  {
    if q < n - 1 {
      BlendedPrefixAt(f, m, b, n - 1, q, c);
    }
  }

  /** Pixel p of the blend, byte by byte. */
  lemma BlendedAt(f: seq<byte>, m: seq<byte>, b: seq<byte>, p: nat)
    requires |b| == |f| && |f| % 4 == 0 && 4 * p + 3 < |f|
    ensures var r := Blended(f, m, b);
      && r[4 * p + 3] == OPAQUE
      && (4 * p < |m| ==>
            && r[4 * p] == BlendChannel(f[4 * p], b[4 * p], m[4 * p])
            && r[4 * p + 1] == BlendChannel(f[4 * p + 1], b[4 * p + 1], m[4 * p])
            && r[4 * p + 2] == BlendChannel(f[4 * p + 2], b[4 * p + 2], m[4 * p]))
      && (4 * p >= |m| ==> r[4 * p] == 0 && r[4 * p + 1] == 0 && r[4 * p + 2] == 0)
  {
    var n := |f| / 4;
    BlendedPrefixAt(f, m, b, n, p, 0);
    BlendedPrefixAt(f, m, b, n, p, 1);
    BlendedPrefixAt(f, m, b, n, p, 2);
    BlendedPrefixAt(f, m, b, n, p, 3);
  }

  /** Every output pixel is opaque. */
  lemma BlendedOpaque(f: seq<byte>, m: seq<byte>, b: seq<byte>)
    requires |b| == |f| && |f| % 4 == 0
    ensures Opaque(Blended(f, m, b))
  {
    var r := Blended(f, m, b);
    forall p: nat | p < |r| / 4 ensures AlphaAt(r, p) == OPAQUE {
      BlendedAt(f, m, b, p);
    }
  }

  /** Per pixel: a mask value of 255 keeps the frame's colour, 0 takes the background's,
      and anything else gives a colour between the two. */
  lemma BlendedPixel(f: seq<byte>, m: seq<byte>, b: seq<byte>, p: nat, c: nat)
    requires |b| == |f| && |f| % 4 == 0 && 4 * p + 3 < |f| && 4 * p < |m| && c < 3
    ensures var v := Blended(f, m, b)[4 * p + c];
      && Min(f[4 * p + c], b[4 * p + c]) <= v <= Max(f[4 * p + c], b[4 * p + c])
      && (m[4 * p] == 255 ==> v == f[4 * p + c])
      && (m[4 * p] == 0 ==> v == b[4 * p + c])
  {
    BlendedAt(f, m, b, p);
    BlendChannelBetween(f[4 * p + c], b[4 * p + c], m[4 * p]);
    if m[4 * p] == 255 {
      BlendChannelFull(f[4 * p + c], b[4 * p + c]);
    }
    if m[4 * p] == 0 {
      BlendChannelEmpty(f[4 * p + c], b[4 * p + c]);
    }
  }

  /** The mask covers pixel p fully. */
  predicate FullAt(m: seq<byte>, p: nat)
  {
    4 * p < |m| && m[4 * p] == 255
  }

  /** The mask marks pixel p as background. */
  predicate EmptyAt(m: seq<byte>, p: nat)
  {
    4 * p < |m| && m[4 * p] == 0
  }

  /** Under a full mask, pixel q of an opaque frame is written unchanged. */
  lemma FullPixel(f: seq<byte>, m: seq<byte>, b: seq<byte>, q: nat)
    requires |b| == |f| && 4 * q + 3 < |f| && FullAt(m, q) && AlphaAt(f, q) == OPAQUE
    ensures BlendedPixelBytes(f, m, b, q) == f[4 * q .. 4 * q + 4]
  {
    var i := 4 * q;
    BlendChannelFull(f[i], b[i]);
    BlendChannelFull(f[i + 1], b[i + 1]);
    BlendChannelFull(f[i + 2], b[i + 2]);
    assert f[i .. i + 4] == [f[i], f[i + 1], f[i + 2], f[i + 3]];
  }

  /** Under an empty mask, pixel q of an opaque background is written unchanged. */
  lemma EmptyPixel(f: seq<byte>, m: seq<byte>, b: seq<byte>, q: nat)
    requires |b| == |f| && 4 * q + 3 < |f| && EmptyAt(m, q) && AlphaAt(b, q) == OPAQUE
    ensures BlendedPixelBytes(f, m, b, q) == b[4 * q .. 4 * q + 4]
  {
    var i := 4 * q;
    BlendChannelEmpty(f[i], b[i]);
    BlendChannelEmpty(f[i + 1], b[i + 1]);
    BlendChannelEmpty(f[i + 2], b[i + 2]);
    assert b[i .. i + 4] == [b[i], b[i + 1], b[i + 2], b[i + 3]];
  }

  lemma SplitAt(s: seq<byte>, k: nat)
    requires k + 4 <= |s|
    ensures s[..k + 4] == s[..k] + s[k .. k + 4]
  {
  }

  lemma {:induction false} FullPrefix(f: seq<byte>, m: seq<byte>, b: seq<byte>, n: nat)
    requires |b| == |f| && 4 * n <= |f| && Opaque(f)
    requires forall p: nat :: p < n ==> FullAt(m, p)
    ensures BlendedPrefix(f, m, b, n) == f[..4 * n]
  {
    if n > 0 {
      var k := 4 * (n - 1);
      FullPrefix(f, m, b, n - 1);
      assert AlphaAt(f, n - 1) == OPAQUE;
      FullPixel(f, m, b, n - 1);
      SplitAt(f, k);
      assert 4 * n == k + 4;
      assert BlendedPrefix(f, m, b, n) ==
        BlendedPrefix(f, m, b, n - 1) + BlendedPixelBytes(f, m, b, n - 1);
    }
  }

  lemma {:induction false} EmptyPrefix(f: seq<byte>, m: seq<byte>, b: seq<byte>, n: nat)
    requires |b| == |f| && 4 * n <= |f| && Opaque(b)
    requires forall p: nat :: p < n ==> EmptyAt(m, p)
    ensures BlendedPrefix(f, m, b, n) == b[..4 * n]
  {
    if n > 0 {
      var k := 4 * (n - 1);
      EmptyPrefix(f, m, b, n - 1);
      assert AlphaAt(b, n - 1) == OPAQUE;
      EmptyPixel(f, m, b, n - 1);
      SplitAt(b, k);
      assert 4 * n == k + 4;
      assert BlendedPrefix(f, m, b, n) ==
        BlendedPrefix(f, m, b, n - 1) + BlendedPixelBytes(f, m, b, n - 1);
    }
  }

  /** An opaque frame under a mask that covers every pixel comes back unchanged. */
  lemma BlendFullMask(f: seq<byte>, m: seq<byte>, b: seq<byte>)
    requires |b| == |f| && |f| % 4 == 0 && Opaque(f)
    requires forall p: nat :: p < |f| / 4 ==> FullAt(m, p)
    ensures Blended(f, m, b) == f
  {
    FullPrefix(f, m, b, |f| / 4);
    assert f[..|f|] == f;
  }

  /** Under a mask that is background everywhere, an opaque background comes through
      unchanged. */
  lemma BlendEmptyMask(f: seq<byte>, m: seq<byte>, b: seq<byte>)
    requires |b| == |f| && |f| % 4 == 0 && Opaque(b)
    requires forall p: nat :: p < |f| / 4 ==> EmptyAt(m, p)
    ensures Blended(f, m, b) == b
  {
    EmptyPrefix(f, m, b, |f| / 4);
    assert b[..|b|] == b;
  }

  /** Pixels the mask does not reach come out black and opaque. */
  lemma BlendBeyondMask(f: seq<byte>, m: seq<byte>, b: seq<byte>, p: nat)
    requires |b| == |f| && |f| % 4 == 0 && 4 * p + 3 < |f| && 4 * p >= |m|
    ensures var r := Blended(f, m, b);
      r[4 * p] == 0 && r[4 * p + 1] == 0 && r[4 * p + 2] == 0 && r[4 * p + 3] == OPAQUE
  {
    BlendedAt(f, m, b, p);
  }

  /** The blend loop: a fresh buffer the size of the frame; pixel by pixel it mixes the
      frame and the background by the mask's red byte and sets alpha 255. */
  method Blend(frame: ImageData, mask: ImageData, back: seq<byte>) returns (output: ImageData)
    requires frame.Valid() && |back| == frame.data.Length
    ensures fresh(output) && fresh(output.data) && output.Valid()
    ensures output.width == frame.width && output.height == frame.height
    ensures output.data[..] == Blended(frame.data[..], mask.data[..], back)
  {
    output := new ImageData(frame.width, frame.height);
    var i := 0;
    ghost var n := 0;
    while i < frame.data.Length
      invariant i == 4 * n && i <= frame.data.Length
      invariant output.data[..i] == BlendedPrefix(frame.data[..], mask.data[..], back, n)
    {
      BlendPixel(frame, mask, back, output, i, n);
      i, n := i + 4, n + 1;
    }
    assert output.data[..] == output.data[..i];
  }

  /** One iteration of the blend loop, at pixel p (red byte at index 4p): the prefix
      written so far grows by that pixel's four bytes. */
  method BlendPixel(frame: ImageData, mask: ImageData, back: seq<byte>, output: ImageData, i: nat, ghost p: nat)
    requires i == 4 * p && output.data != frame.data && output.data != mask.data
    requires 4 * p + 4 <= frame.data.Length && 4 * p + 4 <= output.data.Length
    requires |back| == frame.data.Length
    requires output.data[..4 * p] == BlendedPrefix(frame.data[..], mask.data[..], back, p)
    modifies output.data
    ensures output.data[..4 * p + 4] == BlendedPrefix(frame.data[..], mask.data[..], back, p + 1)
  {
    // past the end of the mask the loop's arithmetic is NaN, which is stored as 0
    var v0, v1, v2 := 0, 0, 0;
    if i < mask.data.Length {
      var maskValue := mask.data[i];
      v0 := BlendChannel(frame.data[i], back[i], maskValue);
      v1 := BlendChannel(frame.data[i + 1], back[i + 1], maskValue);
      v2 := BlendChannel(frame.data[i + 2], back[i + 2], maskValue);
    }
    assert [v0, v1, v2, 255] == BlendedPixelBytes(frame.data[..], mask.data[..], back, p);
    ghost var d := output.data[..];
    output.data[i] := v0;
    output.data[i + 1] := v1;
    output.data[i + 2] := v2;
    output.data[i + 3] := 255;
    assert output.data[..] == d[i := v0][i + 1 := v1][i + 2 := v2][i + 3 := 255];
    AppendPixel(d, i, v0, v1, v2, 255);
  }
}
