/** Mask tightening: threshold with contrast stretch, then repeated 4-neighbour erosion.
    The compositor (CopyBorder) and the demo page (ZeroBorder) run the same algorithm and
    differ only in what an erosion pass leaves in the border rows and columns. */
module MaskRefine {
  import opened Pixels
  import opened Grid

  /** What an erosion pass writes into row 0, row h-1, column 0 and column w-1:
      CopyBorder copies the previous buffer's colour bytes (alpha 255);
      ZeroBorder never writes them, so they keep the fresh buffer's zeros. */
  datatype BorderPolicy = CopyBorder | ZeroBorder

  // ---------------------------------------------------------------- parameters

  /** Threshold `round(tightness * 200)`. */
  function ThresholdOf(tightness: real): (t: int)
    requires 0.0 <= tightness
    ensures 0 <= t
    ensures tightness <= 1.0 ==> t <= 200
    ensures tightness == 0.0 ==> t == 0
    ensures tightness == 1.0 ==> t == 200
  {
    Round(tightness * 200.0)
  }

  /** Erosion pass count `max(1, round(tightness * 6))`. */
  function PassesOf(tightness: real): (k: int)
    ensures 1 <= k
    ensures tightness <= 1.0 ==> k <= 6
    ensures tightness >= 0.25 ==> k >= 2
  {
    Max(1, Round(tightness * 6.0))
  }

  // ---------------------------------------------------------------- threshold

  /** n / d rounded to the nearest integer, ties to the even neighbour. */
  function RoundedRatio(n: nat, d: nat): nat
    requires d >= 1
  {
    var q, r := n / d, n % d;
    if 2 * r < d then q
    else if 2 * r > d then q + 1
    else if q % 2 == 0 then q else q + 1
  }

  /** The stretched value `min(255, (v - t) / (255 - t) * 255)` before it is stored. */
  function Boost(v: byte, t: int): real
    requires 0 <= t < 255
  {
    RealMin(255.0, (v - t) as real / (255 - t) as real * 255.0)
  }

  function RealMin(a: real, b: real): real { if a <= b then a else b }

  /** The byte the threshold stage stores for a mask value v: `(v - t) * 255 / (255 - t)`
      rounded (StretchIsStore shows this is the clamped store of Boost). A threshold of
      255 or more (tightness above 1.2725) leaves only v == t == 255 above it, where the
      stretch is 0 / 0: NaN, which the byte store turns into 0. */
  function Stretch(v: byte, t: int): (r: byte)
    requires 0 <= t
    ensures v <= t ==> r == 0
    ensures t < 255 ==> (r == 255 <==> v == 255)
    ensures t >= 255 ==> r == 0
  {
    if v < t then 0
    else if t >= 255 then 0
    else
      StretchBounds(v, t);
      RoundedRatio((v - t) * 255, 255 - t)
  }

  /** The quotient of n by d is q with remainder r. */
  lemma QuotientIs(n: nat, d: nat, q: nat, r: nat)
    requires d >= 1 && n == q * d + r && r < d
    ensures n / d == q && n % d == r
  {
    var q', r' := n / d, n % d;
    if q' > q {
      MulAtLeast(q' - q, d);
    } else if q' < q {
      MulAtLeast(q - q', d);
    }
  }

  /** n <= k * d keeps the rounded ratio at most k. */
  lemma RoundedRatioAtMost(n: nat, d: nat, k: nat)
    requires d >= 1 && n <= k * d
    ensures RoundedRatio(n, d) <= k
  {
    var q, r := n / d, n % d;
    assert n == q * d + r;
    if q >= k {
      assert (q - k) * d >= 0;
      assert q * d >= k * d;
      assert r == 0 && q == k;
    }
  }

  lemma StretchBounds(v: byte, t: int)
    requires 0 <= t <= v && t < 255
    ensures RoundedRatio((v - t) * 255, 255 - t) <= 255
    ensures v == t ==> RoundedRatio((v - t) * 255, 255 - t) == 0
    ensures v == 255 ==> RoundedRatio((v - t) * 255, 255 - t) == 255
    ensures v < 255 ==> RoundedRatio((v - t) * 255, 255 - t) <= 254
  {
    var n, d := (v - t) * 255, 255 - t;
    if v == 255 {
      QuotientIs(n, d, 255, 0);
    } else {
      assert n <= 254 * d;
      RoundedRatioAtMost(n, d, 254);
    }
    if v == t {
      QuotientIs(n, d, 0, 0);
    }
  }

  /** The stretched byte is what the Uint8ClampedArray stores for the loop's
      `Math.min(255, (value - threshold) / (255 - threshold) * 255)`. */
  lemma StretchIsStore(v: byte, t: int)
    requires 0 <= t <= v && t < 255
    ensures Stretch(v, t) == ToByte(Boost(v, t))
  {
    var n, d := (v - t) * 255, 255 - t;
    assert (v - t) as real / d as real * 255.0 == n as real / d as real;
    assert n <= 255 * d;
    RatioAtMost(n, d, 255);
    RatioStore(n, d);
  }

  /** n <= k * d puts the real ratio n / d at most k. */
  lemma RatioAtMost(n: nat, d: nat, k: nat)
    requires d >= 1 && n <= k * d
    ensures n as real / d as real <= k as real
  {
    assert (k * d) as real == k as real * d as real;
  }

  /** The real ratio n / d is its quotient plus the remainder over d. */
  lemma RatioSplit(n: nat, d: nat)
    requires d >= 1
    ensures n as real / d as real == (n / d) as real + (n % d) as real / d as real
  {
    var q, r := n / d, n % d;
    assert n == q * d + r;
    assert (q * d) as real == q as real * d as real;
  }

  /** Storing the ratio n / d (at most 255) in a byte rounds it half to even. */
  lemma RatioStore(n: nat, d: nat)
    requires d >= 1 && n as real / d as real <= 255.0
    ensures ToByte(n as real / d as real) == RoundedRatio(n, d)
  {
    var x := n as real / d as real;
    var q, r := n / d, n % d;
    RatioSplit(n, d);
    Fraction(r, d);
    assert x.Floor == q;
  }

  /** The fraction r / d of a remainder r < d, compared with 0, one half and 1. */
  lemma Fraction(r: nat, d: nat)
    requires r < d
    ensures 0.0 <= r as real / d as real < 1.0
    ensures r as real / d as real == 0.0 <==> r == 0
    ensures r as real / d as real < 0.5 <==> 2 * r < d
    ensures r as real / d as real > 0.5 <==> 2 * r > d
  {
    FractionVersus(r as real, d as real, 0.0);
    FractionVersus(r as real, d as real, 0.5);
    FractionVersus(r as real, d as real, 1.0);
  }

  /** Comparing a / dd with k is comparing a with k * dd, for positive dd. */
  lemma FractionVersus(a: real, dd: real, k: real)
    requires dd > 0.0
    ensures a / dd < k <==> a < k * dd
    ensures a / dd > k <==> a > k * dd
  {
    var x := a / dd;
    assert x * dd == a;
    assert x * dd - k * dd == (x - k) * dd;
  }

  /** Division by d is monotone, and so is the remainder under an equal quotient. */
  lemma DivMonotone(n1: nat, n2: nat, d: nat)
    requires d >= 1 && n1 <= n2
    ensures n1 / d <= n2 / d
    ensures n1 / d == n2 / d ==> n1 % d <= n2 % d
  {
    var q1, r1, q2, r2 := n1 / d, n1 % d, n2 / d, n2 % d;
    assert n1 == q1 * d + r1 && n2 == q2 * d + r2;
    if q1 > q2 {
      MulAtLeast(q1 - q2, d);
    }
  }

  /** The rounded ratio is monotone in the numerator. */
  lemma RoundedRatioMonotone(n1: nat, n2: nat, d: nat)
    requires d >= 1 && n1 <= n2
    ensures RoundedRatio(n1, d) <= RoundedRatio(n2, d)
  {
    DivMonotone(n1, n2, d);
  }

  /** A larger mask value never stretches to a smaller byte. */
  lemma StretchMonotone(v1: byte, v2: byte, t: int)
    requires 0 <= t && v1 <= v2
    ensures Stretch(v1, t) <= Stretch(v2, t)
  {
    if t <= v1 && t < 255 {
      RoundedRatioMonotone((v1 - t) * 255, (v2 - t) * 255, 255 - t);
    }
  }

  /** The four bytes the threshold loop writes for pixel p: (v, v, v, 255) with v the
      stretched red byte; the green and blue input bytes are ignored. */
  function ThresholdedPixelBytes(s: seq<byte>, t: int, p: nat): (r: seq<byte>)
    requires 0 <= t && 4 * p + 3 < |s|
    ensures |r| == 4
  {
    var v := Stretch(s[4 * p], t);
    [v, v, v, OPAQUE]
  }

  /** The first n pixels of the threshold stage. */
  function ThresholdedPrefix(s: seq<byte>, t: int, n: nat): (r: seq<byte>)
    requires 0 <= t && 4 * n <= |s|
    ensures |r| == 4 * n
  {
    if n == 0 then [] else ThresholdedPrefix(s, t, n - 1) + ThresholdedPixelBytes(s, t, n - 1)
  }

  /** The threshold stage over a whole buffer. */
  function Thresholded(s: seq<byte>, t: int): (r: seq<byte>)
    requires |s| % 4 == 0 && 0 <= t
    ensures |r| == |s|
  {
    ThresholdedPrefix(s, t, |s| / 4)
  }

  lemma {:induction false} ThresholdedPrefixAt(s: seq<byte>, t: int, n: nat, q: nat, c: nat)
    requires 0 <= t && 4 * n <= |s| && q < n && c < 4
    ensures ThresholdedPrefix(s, t, n)[4 * q + c] == ThresholdedPixelBytes(s, t, q)[c]
  {
    if q < n - 1 {
      ThresholdedPrefixAt(s, t, n - 1, q, c);
    }
  }

  /** Pixel p of the thresholded buffer is (v, v, v, 255) with v the stretched red byte. */
  lemma ThresholdedAt(s: seq<byte>, t: int, p: nat)
    requires |s| % 4 == 0 && 0 <= t && p < |s| / 4
    ensures var r, v := Thresholded(s, t), Stretch(s[4 * p], t);
      r[4 * p] == v && r[4 * p + 1] == v && r[4 * p + 2] == v && r[4 * p + 3] == OPAQUE
  {
    var n := |s| / 4;
    ThresholdedPrefixAt(s, t, n, p, 0);
    ThresholdedPrefixAt(s, t, n, p, 1);
    ThresholdedPrefixAt(s, t, n, p, 2);
    ThresholdedPrefixAt(s, t, n, p, 3);
  }

  /** Per pixel: below the threshold is black, otherwise the stretched value; alpha 255;
      the result is 255 exactly where the mask was 255. */
  lemma ThresholdedPixel(s: seq<byte>, t: int, p: nat)
    requires |s| % 4 == 0 && 0 <= t && p < |s| / 4
    ensures var r := Thresholded(s, t);
      && r[4 * p + 3] == 255
      && (s[4 * p] < t ==> r[4 * p] == r[4 * p + 1] == r[4 * p + 2] == 0)
      && (s[4 * p] >= t ==> r[4 * p] == r[4 * p + 1] == r[4 * p + 2] == Stretch(s[4 * p], t))
      && (s[4 * p] == t ==> r[4 * p] == 0)
      && (t < 255 ==> (r[4 * p] == 255 <==> s[4 * p] == 255))
  {
    ThresholdedAt(s, t, p);
  }

  lemma ThresholdedGrayOpaque(s: seq<byte>, t: int)
    requires |s| % 4 == 0 && 0 <= t
    ensures Gray(Thresholded(s, t)) && Opaque(Thresholded(s, t))
  {
    var r := Thresholded(s, t);
    forall p: nat | p < |r| / 4
      ensures GrayAt(r, p) && AlphaAt(r, p) == OPAQUE
    {
      ThresholdedPixel(s, t, p);
    }
  }

  // ---------------------------------------------------------------- erosion

  /** `Math.min(center, top, bottom, left, right)`. */
  function Min5(a: byte, b: byte, c: byte, d: byte, e: byte): (m: byte)
    ensures m <= a && m <= b && m <= c && m <= d && m <= e
    ensures m == a || m == b || m == c || m == d || m == e
  {
    Min(a, Min(b, Min(c, Min(d, e))))
  }

  /** Byte c of pixel p after one erosion pass over s. */
  function ErodedByte(s: seq<byte>, w: nat, h: nat, policy: BorderPolicy, p: nat, c: nat): byte
    requires Shaped(s, w, h) && p < w * h && c < 4
  {
    if Interior(p, w, h) then
      if c == 3 then OPAQUE
      else
        InteriorNeighbours(p, w, h);
        Min5(s[4 * p], s[4 * (p - w)], s[4 * (p + w)], s[4 * (p - 1)], s[4 * (p + 1)])
    else
      match policy
      case CopyBorder => if c == 3 then OPAQUE else s[4 * p + c]
      case ZeroBorder => 0
  }

  /** Pixel p after one erosion pass over s, as four bytes. */
  function ErodedPixel(s: seq<byte>, w: nat, h: nat, policy: BorderPolicy, p: nat): (r: seq<byte>)
    requires Shaped(s, w, h) && p < w * h
    ensures |r| == 4
  {
    [ErodedByte(s, w, h, policy, p, 0), ErodedByte(s, w, h, policy, p, 1),
     ErodedByte(s, w, h, policy, p, 2), ErodedByte(s, w, h, policy, p, 3)]
  }

  /** Pixels p .. w*h-1 of one erosion pass over s. */
  function ErodeFrom(s: seq<byte>, w: nat, h: nat, policy: BorderPolicy, p: nat): (r: seq<byte>)
    requires Shaped(s, w, h) && p <= w * h
    ensures |r| == 4 * (w * h - p)
    decreases w * h - p
  {
    if p == w * h then [] else ErodedPixel(s, w, h, policy, p) + ErodeFrom(s, w, h, policy, p + 1)
  }

  /** One erosion pass: it reads s and describes a freshly written buffer. */
  function Erode(s: seq<byte>, w: nat, h: nat, policy: BorderPolicy): (r: seq<byte>)
    requires Shaped(s, w, h)
    ensures Shaped(r, w, h)
  {
    ErodeFrom(s, w, h, policy, 0)
  }

  lemma {:induction false} ErodeFromAt(s: seq<byte>, w: nat, h: nat, policy: BorderPolicy, p: nat, q: nat, c: nat)
    requires Shaped(s, w, h) && p <= q < w * h && c < 4
    ensures ErodeFrom(s, w, h, policy, p)[4 * (q - p) + c] == ErodedByte(s, w, h, policy, q, c)
    decreases q - p
  {
    if p < q {
      ErodeFromAt(s, w, h, policy, p + 1, q, c);
      assert 4 * (q - p) + c == 4 + (4 * (q - (p + 1)) + c);
    } else {
      var px := ErodedPixel(s, w, h, policy, p);
      assert ErodeFrom(s, w, h, policy, p)[c] == px[c];
    }
  }

  /** Byte c of pixel p of a pass is ErodedByte(s, w, h, policy, p, c). */
  lemma ErodeAt(s: seq<byte>, w: nat, h: nat, policy: BorderPolicy, p: nat, c: nat)
    requires Shaped(s, w, h) && p < w * h && c < 4
    ensures Erode(s, w, h, policy)[4 * p + c] == ErodedByte(s, w, h, policy, p, c)
  {
    ErodeFromAt(s, w, h, policy, 0, p, c);
  }

  /** k erosion passes. */
  function ErodeN(s: seq<byte>, w: nat, h: nat, policy: BorderPolicy, k: nat): (r: seq<byte>)
    requires Shaped(s, w, h)
    ensures Shaped(r, w, h)
  {
    if k == 0 then s else Erode(ErodeN(s, w, h, policy, k - 1), w, h, policy)
  }

  /** The whole tightening stage for threshold t and k passes. */
  function Tightened(s: seq<byte>, w: nat, h: nat, t: int, k: nat, policy: BorderPolicy): (r: seq<byte>)
    requires Shaped(s, w, h) && 0 <= t
    ensures Shaped(r, w, h)
  {
    ErodeN(Thresholded(s, t), w, h, policy, k)
  }

  /** An interior pixel becomes the least red value among itself and its four neighbours. */
  lemma ErodeInteriorMin(s: seq<byte>, w: nat, h: nat, policy: BorderPolicy, p: nat, c: nat)
    requires Shaped(s, w, h) && p < w * h && c < 3 && Interior(p, w, h)
    ensures p >= w + 1 && p + w + 1 < w * h
    ensures var v := Erode(s, w, h, policy)[4 * p + c];
      && v <= s[4 * p] && v <= s[4 * (p - w)] && v <= s[4 * (p + w)]
      && v <= s[4 * (p - 1)] && v <= s[4 * (p + 1)]
      && (v == s[4 * p] || v == s[4 * (p - w)] || v == s[4 * (p + w)]
          || v == s[4 * (p - 1)] || v == s[4 * (p + 1)])
  {
    InteriorNeighbours(p, w, h);
    ErodeAt(s, w, h, policy, p, c);
  }

  /** An interior pixel next to a zero pixel is zero after one pass; in particular an
      isolated foreground pixel surrounded by background disappears. */
  lemma ErodeRemovesIsolated(s: seq<byte>, w: nat, h: nat, policy: BorderPolicy, p: nat)
    requires Shaped(s, w, h) && p < w * h && Interior(p, w, h)
    requires p >= w + 1 && p + w + 1 < w * h
    requires s[4 * (p - w)] == 0 || s[4 * (p + w)] == 0 || s[4 * (p - 1)] == 0 || s[4 * (p + 1)] == 0
    ensures var r := Erode(s, w, h, policy); r[4 * p] == r[4 * p + 1] == r[4 * p + 2] == 0
  {
    ErodeInteriorMin(s, w, h, policy, p, 0);
    ErodeInteriorMin(s, w, h, policy, p, 1);
    ErodeInteriorMin(s, w, h, policy, p, 2);
  }

  /** Alpha after a pass: 255 wherever a pass writes, 0 on a ZeroBorder border. */
  lemma ErodeAlpha(s: seq<byte>, w: nat, h: nat, policy: BorderPolicy, p: nat)
    requires Shaped(s, w, h) && p < w * h
    ensures Erode(s, w, h, policy)[4 * p + 3] ==
      if Interior(p, w, h) || policy == CopyBorder then 255 else 0
  {
    ErodeAt(s, w, h, policy, p, 3);
  }

  /** One colour byte after a pass: no larger than before, and equal to the pixel's red byte. */
  lemma ErodedColourBelow(s: seq<byte>, w: nat, h: nat, policy: BorderPolicy, p: nat, c: nat)
    requires Shaped(s, w, h) && Gray(s) && p < w * h && c < 3
    ensures Erode(s, w, h, policy)[4 * p + c] <= s[4 * p + c]
    ensures Erode(s, w, h, policy)[4 * p + c] == Erode(s, w, h, policy)[4 * p]
  {
    assert GrayAt(s, p);
    ErodeAt(s, w, h, policy, p, c);
    ErodeAt(s, w, h, policy, p, 0);
  }

  /** A pass keeps pixels gray and never raises a colour byte. */
  lemma ErodeGrayMonotone(s: seq<byte>, w: nat, h: nat, policy: BorderPolicy)
    requires Shaped(s, w, h) && Gray(s)
    ensures Gray(Erode(s, w, h, policy))
    ensures forall i :: 0 <= i < |s| && i % 4 < 3 ==> Erode(s, w, h, policy)[i] <= s[i]
  {
    var r := Erode(s, w, h, policy);
    forall i | 0 <= i < |s| && i % 4 < 3
      ensures r[i] <= s[i]
    {
      assert i == 4 * (i / 4) + i % 4;
      ErodedColourBelow(s, w, h, policy, i / 4, i % 4);
    }
    forall p: nat | p < |r| / 4
      ensures GrayAt(r, p)
    {
      ErodedColourBelow(s, w, h, policy, p, 1);
      ErodedColourBelow(s, w, h, policy, p, 2);
    }
  }

  /** Repeated passes keep pixels gray. */
  lemma {:induction false} ErodeNGray(s: seq<byte>, w: nat, h: nat, policy: BorderPolicy, k: nat)
    requires Shaped(s, w, h) && Gray(s)
    ensures Gray(ErodeN(s, w, h, policy, k))
  {
    if k > 0 {
      assert ErodeN(s, w, h, policy, k) == Erode(ErodeN(s, w, h, policy, k - 1), w, h, policy);
      ErodeNGray(s, w, h, policy, k - 1);
      ErodeGrayMonotone(ErodeN(s, w, h, policy, k - 1), w, h, policy);
    }
  }

  /** Erosion is monotone: no colour byte increases from pass k-1 to pass k. */
  lemma ErodeNMonotone(s: seq<byte>, w: nat, h: nat, policy: BorderPolicy, k: nat, p: nat, c: nat)
    requires Shaped(s, w, h) && Gray(s) && k >= 1 && p < w * h && c < 3
    ensures ErodeN(s, w, h, policy, k)[4 * p + c] <= ErodeN(s, w, h, policy, k - 1)[4 * p + c]
  {
    assert ErodeN(s, w, h, policy, k) == Erode(ErodeN(s, w, h, policy, k - 1), w, h, policy);
    ErodeNGray(s, w, h, policy, k - 1);
    ErodedColourBelow(ErodeN(s, w, h, policy, k - 1), w, h, policy, p, c);
  }

  /** Over any number of passes, no colour byte rises above its starting value. */
  lemma {:induction false} ErodeNBelowStart(s: seq<byte>, w: nat, h: nat, policy: BorderPolicy, k: nat, p: nat, c: nat)
    requires Shaped(s, w, h) && Gray(s) && p < w * h && c < 3
    ensures ErodeN(s, w, h, policy, k)[4 * p + c] <= s[4 * p + c]
  {
    if k > 0 {
      ErodeNBelowStart(s, w, h, policy, k - 1, p, c);
      ErodeNMonotone(s, w, h, policy, k, p, c);
    }
  }

  /** CopyBorder: border pixels keep their colour bytes through every pass. */
  lemma {:induction false} CopyBorderKeepsBorder(s: seq<byte>, w: nat, h: nat, k: nat, p: nat, c: nat)
    requires Shaped(s, w, h) && p < w * h && c < 3 && !Interior(p, w, h)
    ensures ErodeN(s, w, h, CopyBorder, k)[4 * p + c] == s[4 * p + c]
  {
    if k > 0 {
      assert ErodeN(s, w, h, CopyBorder, k) == Erode(ErodeN(s, w, h, CopyBorder, k - 1), w, h, CopyBorder);
      CopyBorderKeepsBorder(s, w, h, k - 1, p, c);
      ErodedBorderByte(ErodeN(s, w, h, CopyBorder, k - 1), w, h, CopyBorder, p, c);
    }
  }

  /** CopyBorder: on a grid with fewer than three rows or columns every pixel is a
      border pixel, so erosion leaves an opaque buffer exactly as it was. */
  lemma {:induction false} CopyBorderSmallGrid(s: seq<byte>, w: nat, h: nat, k: nat)
    requires Shaped(s, w, h) && Opaque(s) && (w < 3 || h < 3)
    ensures ErodeN(s, w, h, CopyBorder, k) == s
  {
    if k > 0 {
      assert ErodeN(s, w, h, CopyBorder, k) == Erode(ErodeN(s, w, h, CopyBorder, k - 1), w, h, CopyBorder);
      CopyBorderSmallGrid(s, w, h, k - 1);
      OpaqueBorderFixed(s, w, h);
    }
  }

  /** One CopyBorder pass over an opaque buffer without interior pixels changes nothing. */
  lemma OpaqueBorderFixed(s: seq<byte>, w: nat, h: nat)
    requires Shaped(s, w, h) && Opaque(s) && (w < 3 || h < 3)
    ensures Erode(s, w, h, CopyBorder) == s
  {
    var r := Erode(s, w, h, CopyBorder);
    forall i | 0 <= i < |s| ensures r[i] == s[i] {
      var p, c := i / 4, i % 4;
      assert i == 4 * p + c;
      NoInterior(p, w, h);
      ErodedBorderByte(s, w, h, CopyBorder, p, c);
      assert AlphaAt(s, p) == OPAQUE;
    }
  }

  /** ZeroBorder: after at least one pass every border byte, alpha included, is zero. */
  lemma ZeroBorderClearsBorder(s: seq<byte>, w: nat, h: nat, k: nat, p: nat, c: nat)
    requires Shaped(s, w, h) && k >= 1 && p < w * h && c < 4 && !Interior(p, w, h)
    ensures ErodeN(s, w, h, ZeroBorder, k)[4 * p + c] == 0
  {
    assert ErodeN(s, w, h, ZeroBorder, k) == Erode(ErodeN(s, w, h, ZeroBorder, k - 1), w, h, ZeroBorder);
    ErodedBorderByte(ErodeN(s, w, h, ZeroBorder, k - 1), w, h, ZeroBorder, p, c);
  }

  /** ZeroBorder: a grid with fewer than three rows or columns becomes all zeros. */
  lemma ZeroBorderSmallGrid(s: seq<byte>, w: nat, h: nat, k: nat)
    requires Shaped(s, w, h) && k >= 1 && (w < 3 || h < 3)
    ensures forall i :: 0 <= i < |s| ==> ErodeN(s, w, h, ZeroBorder, k)[i] == 0
  {
    forall i | 0 <= i < |s| ensures ErodeN(s, w, h, ZeroBorder, k)[i] == 0 {
      assert i == 4 * (i / 4) + i % 4;
      NoInterior(i / 4, w, h);
      ZeroBorderClearsBorder(s, w, h, k, i / 4, i % 4);
    }
  }

  /** CopyBorder: one pass over a uniform opaque mask changes nothing. */
  lemma UniformFixed(s: seq<byte>, w: nat, h: nat, v: byte)
    requires Shaped(s, w, h) && Uniform(s, v)
    ensures Erode(s, w, h, CopyBorder) == s
  {
    var r := Erode(s, w, h, CopyBorder);
    forall i | 0 <= i < |s| ensures r[i] == s[i] {
      var p, c := i / 4, i % 4;
      assert i == 4 * p + c;
      assert PixelIs(s, p, v);
      if Interior(p, w, h) {
        ErodedInteriorByte(s, w, h, CopyBorder, p, c);
        assert PixelIs(s, p - w, v) && PixelIs(s, p + w, v);
        assert PixelIs(s, p - 1, v) && PixelIs(s, p + 1, v);
      } else {
        ErodedBorderByte(s, w, h, CopyBorder, p, c);
      }
    }
  }

  /** CopyBorder: a uniform opaque mask is left unchanged by any number of passes. */
  lemma {:induction false} CopyBorderUniformFixed(s: seq<byte>, w: nat, h: nat, v: byte, k: nat)
    requires Shaped(s, w, h) && Uniform(s, v)
    ensures ErodeN(s, w, h, CopyBorder, k) == s
  {
    if k > 0 {
      var prev := ErodeN(s, w, h, CopyBorder, k - 1);
      assert ErodeN(s, w, h, CopyBorder, k) == Erode(prev, w, h, CopyBorder);
      CopyBorderUniformFixed(s, w, h, v, k - 1);
      UniformFixed(s, w, h, v);
    }
  }

  /** Tightening never raises a colour byte above its thresholded value; with CopyBorder
      the border keeps the thresholded values. */
  lemma TightenedCopyBorder(s: seq<byte>, w: nat, h: nat, t: int, k: nat, p: nat, c: nat)
    requires Shaped(s, w, h) && 0 <= t && p < w * h && c < 3
    ensures Tightened(s, w, h, t, k, CopyBorder)[4 * p + c] <= Thresholded(s, t)[4 * p + c]
    ensures !Interior(p, w, h) ==>
      Tightened(s, w, h, t, k, CopyBorder)[4 * p + c] == Thresholded(s, t)[4 * p + c]
  {
    var r := Thresholded(s, t);
    ThresholdedGrayOpaque(s, t);
    ErodeNBelowStart(r, w, h, CopyBorder, k, p, c);
    if !Interior(p, w, h) {
      CopyBorderKeepsBorder(r, w, h, k, p, c);
    }
  }

  /** Tightening never raises a colour byte above its thresholded value; with ZeroBorder
      the border is black after the first pass. */
  lemma TightenedZeroBorder(s: seq<byte>, w: nat, h: nat, t: int, k: nat, p: nat, c: nat)
    requires Shaped(s, w, h) && 0 <= t && p < w * h && c < 3
    ensures Tightened(s, w, h, t, k, ZeroBorder)[4 * p + c] <= Thresholded(s, t)[4 * p + c]
    ensures !Interior(p, w, h) && k >= 1 ==>
      Tightened(s, w, h, t, k, ZeroBorder)[4 * p + c] == 0
  {
    var r := Thresholded(s, t);
    ThresholdedGrayOpaque(s, t);
    ErodeNBelowStart(r, w, h, ZeroBorder, k, p, c);
    if !Interior(p, w, h) && k >= 1 {
      ZeroBorderClearsBorder(r, w, h, k, p, c);
    }
  }

  /** A mask whose every pixel is (v, v, v, 255) tightens, under CopyBorder, to the
      uniform mask of the stretched value: thresholding maps each pixel alike and
      erosion has no darker neighbour to take. */
  lemma UniformTightened(s: seq<byte>, w: nat, h: nat, t: int, k: nat, v: byte)
    requires Shaped(s, w, h) && 0 <= t && Uniform(s, v)
    ensures Uniform(Tightened(s, w, h, t, k, CopyBorder), Stretch(v, t))
  {
    var r := Thresholded(s, t);
    forall p: nat | p < |r| / 4 ensures PixelIs(r, p, Stretch(v, t)) {
      ThresholdedAt(s, t, p);
      assert PixelIs(s, p, v);
    }
    CopyBorderUniformFixed(r, w, h, Stretch(v, t), k);
  }

  /** Mask value 200 at tightness 0.5 (threshold 100) stretches to 165, not to 255. */
  lemma StretchAt200()
    ensures ThresholdOf(0.5) == 100 && PassesOf(0.5) == 3
    ensures Stretch(200, 100) == 165
  {
    QuotientIs(25500, 155, 164, 80);
  }

  /** What `tightenMask(mask, tightness)` returns: the mask itself for tightness <= 0,
      otherwise the mask thresholded at `round(tightness * 200)` and eroded
      `max(1, round(tightness * 6))` times. */
  function TightenedBy(s: seq<byte>, w: nat, h: nat, tightness: real, policy: BorderPolicy): (r: seq<byte>)
    requires Shaped(s, w, h)
    ensures Shaped(r, w, h)
  {
    if tightness <= 0.0 then s
    else Tightened(s, w, h, ThresholdOf(tightness), PassesOf(tightness), policy)
  }

  // ---------------------------------------------------------------- the loops

  /** The threshold loop: a fresh buffer the size of the mask. */
  method ThresholdMask(mask: ImageData, t: int) returns (current: ImageData)
    requires mask.Valid() && 0 <= t
    ensures fresh(current) && fresh(current.data) && current.Valid()
    ensures current.width == mask.width && current.height == mask.height
    ensures current.data[..] == Thresholded(mask.data[..], t)
  {
    current := new ImageData(mask.width, mask.height);
    ghost var s := mask.data[..];
    var i := 0;
    ghost var n := 0;
    while i < mask.data.Length
      invariant i == 4 * n && i <= mask.data.Length && mask.data[..] == s
      invariant current.data[..i] == ThresholdedPrefix(s, t, n)
    {
      StretchPixel(mask, current, i, t, n);
      i, n := i + 4, n + 1;
    }
    assert current.data[..] == current.data[..i];
  }

  /** One iteration of the threshold loop, at pixel p (red byte at index 4p): writes
      (s, s, s, 255) with s = Stretch(value, t), so the prefix grows by that pixel. */
  method StretchPixel(mask: ImageData, current: ImageData, i: nat, t: int, ghost p: nat)
    requires i == 4 * p && mask.data != current.data
    requires 4 * p + 4 <= mask.data.Length && 4 * p + 4 <= current.data.Length
    requires 0 <= t
    requires current.data[..4 * p] == ThresholdedPrefix(mask.data[..], t, p)
    modifies current.data
    ensures current.data[..4 * p + 4] == ThresholdedPrefix(mask.data[..], t, p + 1)
  {
    var value := mask.data[i];
    var v := 0;
    if value < t {
      v := 0;
    } else if t >= 255 {
      // value == t == 255: the stretch divides 0 by 0, and NaN is stored as 0
      v := 0;
    } else {
      v := Stretch(value, t);
    }
    assert [v, v, v, 255] == ThresholdedPixelBytes(mask.data[..], t, p);
    ghost var d := current.data[..];
    current.data[i] := v;
    current.data[i + 1] := v;
    current.data[i + 2] := v;
    current.data[i + 3] := 255;
    assert current.data[..] == d[i := v][i + 1 := v][i + 2 := v][i + 3 := 255];
    AppendPixel(d, i, v, v, v, 255);
  }

  /** `d` holds the pass result `e` on the pixels in `done` and zeros elsewhere. */
  ghost predicate WrittenOn(d: seq<byte>, e: seq<byte>, done: set<nat>)
    requires |d| == |e|
  {
    forall i :: 0 <= i < |d| ==> d[i] == if i / 4 in done then e[i] else 0
  }

  /** Pixels the interior loops have written once they reach row y, column x:
      rows 1 .. y-1 and columns 1 .. x-1 of row y. */
  ghost function Visited(w: nat, h: nat, y: nat, x: nat): set<nat>
    requires w >= 1
    decreases y, x
  {
    if x <= 1 then
      if y <= 1 then {} else Visited(w, h, y - 1, w - 1)
    else Visited(w, h, y, x - 1) + {y * w + (x - 1)}
  }

  /** Every interior pixel before (y, x) in row-major order has been visited. */
  lemma {:induction false} InVisited(w: nat, h: nat, y: nat, x: nat, q: nat)
    requires w >= 1 && Interior(q, w, h)
    requires Row(q, w) < y || (Row(q, w) == y && Col(q, w) < x)
    ensures q in Visited(w, h, y, x)
    decreases y, x
  {
    if x <= 1 {
      InVisited(w, h, y - 1, w - 1, q);
    } else if Row(q, w) == y && Col(q, w) == x - 1 {
      RowCol(x - 1, y, w);
      SameCoords(q, y * w + (x - 1), w);
    } else {
      InVisited(w, h, y, x - 1, q);
    }
  }

  /** Byte c of interior pixel p after a pass: alpha 255, colour the five-pixel minimum. */
  lemma ErodedInteriorByte(s: seq<byte>, w: nat, h: nat, policy: BorderPolicy, p: nat, c: nat)
    requires Shaped(s, w, h) && p < w * h && c < 4 && Interior(p, w, h)
    ensures p >= w + 1 && p + w + 1 < w * h
    ensures Erode(s, w, h, policy)[4 * p + c] ==
      if c == 3 then OPAQUE
      else Min5(s[4 * p], s[4 * (p - w)], s[4 * (p + w)], s[4 * (p - 1)], s[4 * (p + 1)])
  {
    InteriorNeighbours(p, w, h);
    ErodeAt(s, w, h, policy, p, c);
  }

  /** Byte c of border pixel p after a pass: CopyBorder copies the colour bytes and
      sets alpha 255, ZeroBorder leaves zeros. */
  lemma ErodedBorderByte(s: seq<byte>, w: nat, h: nat, policy: BorderPolicy, p: nat, c: nat)
    requires Shaped(s, w, h) && p < w * h && c < 4 && !Interior(p, w, h)
    ensures Erode(s, w, h, policy)[4 * p + c] ==
      match policy
      case CopyBorder => if c == 3 then OPAQUE else s[4 * p + c]
      case ZeroBorder => 0
  {
    ErodeAt(s, w, h, policy, p, c);
  }

  /** Writing pixel p's four bytes of `e` into `d` extends the written set by p. */
  lemma WrittenOnStep(d: seq<byte>, e: seq<byte>, done: set<nat>, p: nat, v0: byte, v1: byte, v2: byte, v3: byte)
    requires |d| == |e| && 4 * p + 3 < |d| && WrittenOn(d, e, done)
    requires e[4 * p] == v0 && e[4 * p + 1] == v1 && e[4 * p + 2] == v2 && e[4 * p + 3] == v3
    ensures WrittenOn(d[4 * p := v0][4 * p + 1 := v1][4 * p + 2 := v2][4 * p + 3 := v3], e, done + {p})
  {
    var d' := d[4 * p := v0][4 * p + 1 := v1][4 * p + 2 := v2][4 * p + 3 := v3];
    forall i | 0 <= i < |d'| ensures d'[i] == if i / 4 in done + {p} then e[i] else 0 {
      if i / 4 == p {
        assert 4 * p <= i < 4 * p + 4;
      } else {
        assert i < 4 * p || 4 * p + 4 <= i;
      }
    }
  }

  /** Byte i of a ZeroBorder pass outside the interior is zero. */
  lemma ErodedZeroByte(s: seq<byte>, w: nat, h: nat, i: nat)
    requires Shaped(s, w, h) && i < |s| && !Interior(i / 4, w, h)
    ensures Erode(s, w, h, ZeroBorder)[i] == 0
  {
    assert i == 4 * (i / 4) + i % 4;
    ErodedBorderByte(s, w, h, ZeroBorder, i / 4, i % 4);
  }

  /** Writing the five-pixel minimum and alpha 255 into interior pixel p of a buffer
      that agrees with a ZeroBorder pass on `done` makes it agree on `done + {p}`. */
  lemma InteriorStep(s: seq<byte>, w: nat, h: nat, d: seq<byte>, done: set<nat>, p: nat, v: byte)
    requires Shaped(s, w, h) && |d| == |s| && p < w * h && Interior(p, w, h)
    requires p >= w + 1 && p + w + 1 < w * h
    requires v == Min5(s[4 * p], s[4 * (p - w)], s[4 * (p + w)], s[4 * (p - 1)], s[4 * (p + 1)])
    requires WrittenOn(d, Erode(s, w, h, ZeroBorder), done)
    ensures WrittenOn(d[4 * p := v][4 * p + 1 := v][4 * p + 2 := v][4 * p + 3 := OPAQUE],
                      Erode(s, w, h, ZeroBorder), done + {p})
  {
    ErodedInteriorByte(s, w, h, ZeroBorder, p, 0);
    ErodedInteriorByte(s, w, h, ZeroBorder, p, 1);
    ErodedInteriorByte(s, w, h, ZeroBorder, p, 2);
    ErodedInteriorByte(s, w, h, ZeroBorder, p, 3);
    WrittenOnStep(d, Erode(s, w, h, ZeroBorder), done, p, v, v, v, OPAQUE);
  }

  /** The body of the interior loops for pixel p: the minimum of the red bytes of the
      pixel and its four neighbours, written to R, G and B, with alpha 255. */
  method ErodePixel(cur: ImageData, eroded: ImageData, p: nat, ghost done: set<nat>)
    requires cur.Valid() && eroded.Valid() && cur.data != eroded.data
    requires eroded.width == cur.width && eroded.height == cur.height
    requires p < cur.width * cur.height && Interior(p, cur.width, cur.height)
    requires WrittenOn(eroded.data[..], Erode(cur.data[..], cur.width, cur.height, ZeroBorder), done)
    modifies eroded.data
    ensures WrittenOn(eroded.data[..], Erode(cur.data[..], cur.width, cur.height, ZeroBorder), done + {p})
  {
    var w, h := cur.width, cur.height;
    ghost var e := Erode(cur.data[..], w, h, ZeroBorder);
    ghost var before := eroded.data[..];
    InteriorNeighbours(p, w, h);
    var idx := 4 * p;
    var centerValue := cur.data[idx];
    var top := cur.data[4 * (p - w)];
    var bottom := cur.data[4 * (p + w)];
    var left := cur.data[4 * (p - 1)];
    var right := cur.data[4 * (p + 1)];
    var minValue := Min5(centerValue, top, bottom, left, right);
    ghost var src := cur.data[..];
    assert src[4 * p] == centerValue && src[4 * (p - w)] == top && src[4 * (p + w)] == bottom;
    assert src[4 * (p - 1)] == left && src[4 * (p + 1)] == right;
    InteriorStep(src, w, h, before, done, p, minValue);
    eroded.data[idx] := minValue;
    eroded.data[idx + 1] := minValue;
    eroded.data[idx + 2] := minValue;
    eroded.data[idx + 3] := 255;
  }

  /** Once every interior pixel is written, a zeroed buffer is the ZeroBorder pass result. */
  lemma InteriorWritten(s: seq<byte>, d: seq<byte>, w: nat, h: nat, y: nat)
    requires Shaped(s, w, h) && |d| == |s| && y >= 1 && y + 1 >= h
    requires WrittenOn(d, Erode(s, w, h, ZeroBorder), Visited(w, h, y, 1))
    ensures d == Erode(s, w, h, ZeroBorder)
  {
    var e := Erode(s, w, h, ZeroBorder);
    forall i | 0 <= i < |d| ensures d[i] == e[i] {
      if Interior(i / 4, w, h) {
        InVisited(w, h, y, 1, i / 4);
      } else {
        ErodedZeroByte(s, w, h, i);
      }
    }
  }

  /** The interior loops of an erosion pass: a fresh zeroed buffer whose interior
      pixels receive the minimum of the pixel and its four neighbours. */
  method ErodeInterior(cur: ImageData) returns (eroded: ImageData)
    requires cur.Valid()
    ensures fresh(eroded) && fresh(eroded.data) && eroded.Valid()
    ensures eroded.width == cur.width && eroded.height == cur.height
    ensures eroded.data[..] == Erode(cur.data[..], cur.width, cur.height, ZeroBorder)
  {
    var w, h := cur.width, cur.height;
    eroded := new ImageData(w, h);
    ghost var done: set<nat> := {};
    var y := 1;
    while y < h - 1
      invariant 1 <= y && (h >= 2 ==> y <= h - 1)
      invariant done == Visited(w, h, y, 1)
      invariant WrittenOn(eroded.data[..], Erode(cur.data[..], w, h, ZeroBorder), done)
    {
      var x := 1;
      while x < w - 1
        invariant 1 <= x && (w >= 2 ==> x <= w - 1) && (w < 2 ==> x == 1)
        invariant done == Visited(w, h, y, x)
        invariant WrittenOn(eroded.data[..], Erode(cur.data[..], w, h, ZeroBorder), done)
      {
        var p := y * w + x;
        RowCol(x, y, w);
        CellInGrid(x, y, w, h);
        ErodePixel(cur, eroded, p, done);
        done := done + {p};
        x := x + 1;
      }
      assert Visited(w, h, y + 1, 1) == Visited(w, h, y, w - 1);
      if w < 2 {
        assert Visited(w, h, y, x) == Visited(w, h, y, w - 1);
      }
      y := y + 1;
    }
    InteriorWritten(cur.data[..], eroded.data[..], w, h, y);
  }

  /** The interior pixels: what the interior loops of a pass write. */
  ghost function InteriorPixels(w: nat, h: nat): set<nat>
    requires w >= 1
  {
    set q: nat | q < w * h && Interior(q, w, h)
  }

  /** Pixels written once the row loop has handled columns 0 .. x-1 (rows 0 and h-1). */
  ghost function RowsDone(w: nat, h: nat, x: nat): set<nat>
    requires w >= 1 && h >= 1
  {
    if x == 0 then InteriorPixels(w, h)
    else RowsDone(w, h, x - 1) + {x - 1} + {(h - 1) * w + (x - 1)}
  }

  /** Pixels written once the column loop has handled rows 0 .. y-1 (columns 0 and w-1). */
  ghost function ColumnsDone(w: nat, h: nat, y: nat): set<nat>
    requires w >= 1 && h >= 1
  {
    if y == 0 then RowsDone(w, h, w)
    else ColumnsDone(w, h, y - 1) + {(y - 1) * w} + {(y - 1) * w + (w - 1)}
  }

  /** The two pixels of column x in rows 0 and h-1 are border pixels of the grid. */
  lemma RowEnds(w: nat, h: nat, x: nat)
    requires 1 <= w && 1 <= h && x < w
    ensures x < w * h && (h - 1) * w + x < w * h
    ensures Row(x, w) == 0 && Col(x, w) == x
    ensures Row((h - 1) * w + x, w) == h - 1 && Col((h - 1) * w + x, w) == x
    ensures !Interior(x, w, h) && !Interior((h - 1) * w + x, w, h)
  {
    RowCol(x, 0, w);
    RowCol(x, h - 1, w);
    CellInGrid(x, 0, w, h);
    CellInGrid(x, h - 1, w, h);
  }

  /** The two pixels of row y in columns 0 and w-1 are border pixels of the grid. */
  lemma ColumnEnds(w: nat, h: nat, y: nat)
    requires 1 <= w && 1 <= h && y < h
    ensures y * w < w * h && y * w + (w - 1) < w * h
    ensures Row(y * w, w) == y && Col(y * w, w) == 0
    ensures Row(y * w + (w - 1), w) == y && Col(y * w + (w - 1), w) == w - 1
    ensures !Interior(y * w, w, h) && !Interior(y * w + (w - 1), w, h)
  {
    RowCol(0, y, w);
    RowCol(w - 1, y, w);
    CellInGrid(0, y, w, h);
    CellInGrid(w - 1, y, w, h);
  }

  /** An interior pixel, or a pixel of row 0 or h-1 in a column below x, is written by
      the time the row loop reaches x. */
  lemma {:induction false} InRowsDone(w: nat, h: nat, x: nat, q: nat)
    requires 1 <= w && 1 <= h && x <= w && q < w * h
    requires Interior(q, w, h) || ((Row(q, w) == 0 || Row(q, w) == h - 1) && Col(q, w) < x)
    ensures q in RowsDone(w, h, x)
  {
    if x > 0 {
      if Interior(q, w, h) || ((Row(q, w) == 0 || Row(q, w) == h - 1) && Col(q, w) < x - 1) {
        InRowsDone(w, h, x - 1, q);
      } else {
        RowEnds(w, h, x - 1);
        if Row(q, w) == 0 {
          SameCoords(q, x - 1, w);
        } else {
          SameCoords(q, (h - 1) * w + (x - 1), w);
        }
      }
    }
  }

  /** Rows 0 and h-1, interior pixels, and pixels of columns 0 and w-1 in rows below y
      are written by the time the column loop reaches y. */
  lemma {:induction false} InColumnsDone(w: nat, h: nat, y: nat, q: nat)
    requires 1 <= w && 1 <= h && y <= h && q < w * h
    requires Interior(q, w, h) || Row(q, w) == 0 || Row(q, w) == h - 1
             || ((Col(q, w) == 0 || Col(q, w) == w - 1) && Row(q, w) < y)
    ensures q in ColumnsDone(w, h, y)
  {
    if y == 0 {
      InRowsDone(w, h, w, q);
    } else if Interior(q, w, h) || Row(q, w) == 0 || Row(q, w) == h - 1
              || ((Col(q, w) == 0 || Col(q, w) == w - 1) && Row(q, w) < y - 1) {
      InColumnsDone(w, h, y - 1, q);
    } else {
      ColumnEnds(w, h, y - 1);
      if Col(q, w) == 0 {
        SameCoords(q, (y - 1) * w, w);
      } else {
        SameCoords(q, (y - 1) * w + (w - 1), w);
      }
    }
  }

  /** After both loops every pixel of the grid is written. */
  lemma ColumnsDoneAll(w: nat, h: nat, q: nat)
    requires 1 <= w && 1 <= h && q < w * h
    ensures q in ColumnsDone(w, h, h)
  {
    RowBelow(q, w, h);
    InColumnsDone(w, h, h, q);
  }

  /** Writes border pixel p of `eroded` as a copied border pixel. */
  method CopyPixel(cur: ImageData, eroded: ImageData, p: nat, ghost done: set<nat>)
    requires cur.Valid() && eroded.Valid() && cur.data != eroded.data
    requires eroded.width == cur.width && eroded.height == cur.height
    requires p < cur.width * cur.height && !Interior(p, cur.width, cur.height)
    requires WrittenOn(eroded.data[..], Erode(cur.data[..], cur.width, cur.height, CopyBorder), done)
    modifies eroded.data
    ensures WrittenOn(eroded.data[..], Erode(cur.data[..], cur.width, cur.height, CopyBorder), done + {p})
  {
    ghost var e := Erode(cur.data[..], cur.width, cur.height, CopyBorder);
    ghost var before := eroded.data[..];
    var idx := 4 * p;
    ErodedBorderByte(cur.data[..], cur.width, cur.height, CopyBorder, p, 0);
    ErodedBorderByte(cur.data[..], cur.width, cur.height, CopyBorder, p, 1);
    ErodedBorderByte(cur.data[..], cur.width, cur.height, CopyBorder, p, 2);
    ErodedBorderByte(cur.data[..], cur.width, cur.height, CopyBorder, p, 3);
    WrittenOnStep(before, e, done, p, cur.data[idx], cur.data[idx + 1], cur.data[idx + 2], OPAQUE);
    eroded.data[idx] := cur.data[idx];
    eroded.data[idx + 1] := cur.data[idx + 1];
    eroded.data[idx + 2] := cur.data[idx + 2];
    eroded.data[idx + 3] := 255;
  }

  /** A ZeroBorder pass agrees with a CopyBorder pass on interior pixels and is zero elsewhere. */
  lemma ZeroBorderWritten(s: seq<byte>, w: nat, h: nat)
    requires Shaped(s, w, h)
    ensures WrittenOn(Erode(s, w, h, ZeroBorder), Erode(s, w, h, CopyBorder), RowsDone(w, h, 0))
  {
    var z, e := Erode(s, w, h, ZeroBorder), Erode(s, w, h, CopyBorder);
    forall i | 0 <= i < |z|
      ensures z[i] == if i / 4 in RowsDone(w, h, 0) then e[i] else 0
    {
      assert i == 4 * (i / 4) + i % 4;
      ErodeAt(s, w, h, ZeroBorder, i / 4, i % 4);
      ErodeAt(s, w, h, CopyBorder, i / 4, i % 4);
    }
  }

  /** Once every pixel is written, the buffer is the CopyBorder pass result. */
  lemma AllWritten(d: seq<byte>, e: seq<byte>, w: nat, h: nat)
    requires Shaped(d, w, h) && |e| == |d| && WrittenOn(d, e, ColumnsDone(w, h, h))
    ensures d == e
  {
    forall i | 0 <= i < |d| ensures d[i] == e[i] {
      ColumnsDoneAll(w, h, i / 4);
    }
  }

  /** The row loop: rows 0 and h-1 of every column. */
  method CopyRowEnds(cur: ImageData, eroded: ImageData)
    requires cur.Valid() && eroded.Valid() && cur.data != eroded.data
    requires eroded.width == cur.width && eroded.height == cur.height
    requires WrittenOn(eroded.data[..], Erode(cur.data[..], cur.width, cur.height, CopyBorder), RowsDone(cur.width, cur.height, 0))
    modifies eroded.data
    ensures WrittenOn(eroded.data[..], Erode(cur.data[..], cur.width, cur.height, CopyBorder), ColumnsDone(cur.width, cur.height, 0))
  {
    var w, h := cur.width, cur.height;
    ghost var done := RowsDone(w, h, 0);
    var x := 0;
    while x < w
      invariant 0 <= x <= w && done == RowsDone(w, h, x)
      invariant WrittenOn(eroded.data[..], Erode(cur.data[..], w, h, CopyBorder), done)
    {
      RowEnds(w, h, x);
      CopyPixel(cur, eroded, x, done);
      done := done + {x};
      CopyPixel(cur, eroded, (h - 1) * w + x, done);
      done := done + {(h - 1) * w + x};
      x := x + 1;
    }
  }

  /** The column loop: columns 0 and w-1 of every row. */
  method CopyColumnEnds(cur: ImageData, eroded: ImageData)
    requires cur.Valid() && eroded.Valid() && cur.data != eroded.data
    requires eroded.width == cur.width && eroded.height == cur.height
    requires WrittenOn(eroded.data[..], Erode(cur.data[..], cur.width, cur.height, CopyBorder), ColumnsDone(cur.width, cur.height, 0))
    modifies eroded.data
    ensures WrittenOn(eroded.data[..], Erode(cur.data[..], cur.width, cur.height, CopyBorder), ColumnsDone(cur.width, cur.height, cur.height))
  {
    var w, h := cur.width, cur.height;
    ghost var done := ColumnsDone(w, h, 0);
    var y := 0;
    while y < h
      invariant 0 <= y <= h && done == ColumnsDone(w, h, y)
      invariant WrittenOn(eroded.data[..], Erode(cur.data[..], w, h, CopyBorder), done)
    {
      ColumnEnds(w, h, y);
      CopyPixel(cur, eroded, y * w, done);
      done := done + {y * w};
      CopyPixel(cur, eroded, y * w + (w - 1), done);
      done := done + {y * w + (w - 1)};
      y := y + 1;
    }
  }

  /** The border loops of the compositor's erosion pass: rows 0 and h-1, then
      columns 0 and w-1, copy the previous buffer's colour bytes and set alpha 255. */
  method CopyBorders(cur: ImageData, eroded: ImageData)
    requires cur.Valid() && eroded.Valid() && cur.data != eroded.data
    requires eroded.width == cur.width && eroded.height == cur.height
    requires eroded.data[..] == Erode(cur.data[..], cur.width, cur.height, ZeroBorder)
    modifies eroded.data
    ensures eroded.data[..] == Erode(cur.data[..], cur.width, cur.height, CopyBorder)
  {
    ZeroBorderWritten(cur.data[..], cur.width, cur.height);
    CopyRowEnds(cur, eroded);
    CopyColumnEnds(cur, eroded);
    AllWritten(eroded.data[..], Erode(cur.data[..], cur.width, cur.height, CopyBorder), cur.width, cur.height);
  }

  /** One erosion pass from `current` into a fresh buffer. */
  method ErodePass(current: ImageData, policy: BorderPolicy) returns (eroded: ImageData)
    requires current.Valid()
    ensures fresh(eroded) && fresh(eroded.data) && eroded.Valid()
    ensures eroded.width == current.width && eroded.height == current.height
    ensures eroded.data[..] == Erode(current.data[..], current.width, current.height, policy)
  {
    eroded := ErodeInterior(current);
    if policy == CopyBorder {
      CopyBorders(current, eroded);
    }
  }

  /** `tightenMask(mask, tightness)`: the mask itself when tightness <= 0, otherwise a
      fresh buffer holding the thresholded mask after `PassesOf(tightness)` passes. */
  method TightenMask(mask: ImageData, tightness: real, policy: BorderPolicy) returns (r: ImageData)
    requires mask.Valid()
    ensures r.Valid() && r.width == mask.width && r.height == mask.height
    ensures tightness <= 0.0 ==> r == mask
    ensures tightness > 0.0 ==> fresh(r.data)
    ensures tightness > 0.0 ==>
      r.data[..] == Tightened(mask.data[..], mask.width, mask.height,
                              ThresholdOf(tightness), PassesOf(tightness), policy)
    ensures r.data[..] == TightenedBy(mask.data[..], mask.width, mask.height, tightness, policy)
  {
    if tightness <= 0.0 {
      return mask;
    }
    var w, h := mask.width, mask.height;
    var threshold := ThresholdOf(tightness);
    var current := ThresholdMask(mask, threshold);
    ghost var start := current.data[..];
    var iterations := PassesOf(tightness);
    var iter := 0;
    while iter < iterations
      invariant 0 <= iter <= iterations
      invariant current.Valid() && current.width == w && current.height == h && fresh(current.data)
      invariant current.data[..] == ErodeN(start, w, h, policy, iter)
    {
      current := ErodePass(current, policy);
      iter := iter + 1;
    }
    r := current;
  }
}
