/**
 * The normaliser of a LERC tile: one band of decoded samples, the band's
 * minimum and maximum and an optional validity mask become the RGBA bytes of
 * an ImageData buffer (grayscale in channels 0-2, alpha in channel 3).
 *
 * Samples are exact reals. Where the JavaScript arithmetic leaves the reals
 * (a read past the end of the sample array gives `undefined`, hence NaN; a
 * zero range gives an infinite scale), the outcome of the IEEE operation is
 * written out as an explicit case.
 */
module Normalize {
  import opened Wrappers

  /** One element of a Uint8ClampedArray. */
  newtype byte = x: int | 0 <= x < 256

  /** What the LERC decoder hands back for band 0. */
  datatype DecodedGrid = DecodedGrid(
    width: nat,
    height: nat,
    minValue: real,           // statistics[0].minValue
    maxValue: real,           // statistics[0].maxValue
    pixels: seq<real>,        // pixels[0], row-major, one padding sample per row
    mask: Option<seq<byte>>)  // maskData, present only when data is missing

  /** Number of output pixels. */
  function PixelCount(g: DecodedGrid): nat
  {
    g.width * g.height
  }

  /** Number of samples the normaliser reads from: one padding sample per row except the last. */
  function SamplesNeeded(g: DecodedGrid): nat
  {
    if PixelCount(g) == 0 then 0 else PixelCount(g) + g.height - 1
  }

  // ---------------------------------------------------------------------------
  // The byte store of a Uint8ClampedArray
  // ---------------------------------------------------------------------------

  /**
   * Storing a number into a Uint8ClampedArray: clamp to [0, 255] and round
   * to the nearest integer, ties to even.
   */
  function ClampToByte(v: real): (b: byte)
    ensures v <= 0.0 ==> b == 0
    ensures v >= 255.0 ==> b == 255
    ensures 0.0 <= v <= 255.0 ==> -0.5 <= b as real - v <= 0.5
    ensures 0.0 <= v <= 255.0 && (b as real - v == 0.5 || v - b as real == 0.5) ==> b % 2 == 0
  {
    if v <= 0.0 then 0
    else if v >= 255.0 then 255
    else
      var f := v.Floor;
      var frac := v - f as real;
      if frac < 0.5 then f as byte
      else if frac > 0.5 then (f + 1) as byte
      else if f % 2 == 0 then f as byte
      else (f + 1) as byte
  }

  /** The byte store never reverses the order of two values. */
  lemma ClampToByteMonotone(v: real, w: real)
    requires v <= w
    ensures ClampToByte(v) <= ClampToByte(w)
  {
    if 0.0 < v && w < 255.0 {
      var fv, fw := v.Floor, w.Floor;
      if fv < fw {
        assert ClampToByte(v) as int <= fv + 1 <= fw <= ClampToByte(w) as int;
      } else {
        assert fv == fw;
      }
    }
  }

  // ---------------------------------------------------------------------------
  // Per-pixel rules
  // ---------------------------------------------------------------------------

  /** `pixels[j]`, or `undefined` past the end of the array. */
  function SampleAt(pixels: seq<real>, j: nat): (s: Option<real>)
    ensures s.Some? <==> j < |pixels|
    ensures s.Some? ==> s.value == pixels[j]
  {
    if j < |pixels| then Some(pixels[j]) else None
  }

  /**
   * The stored luminance of one sample: `(sample - min) * 256 / (max - min)`
   * written into a clamped byte. `undefined - min` is NaN, stored as 0; with
   * `max == min` the scale is +Infinity, so a sample above `min` gives
   * +Infinity (255) and any other gives NaN or -Infinity (0).
   */
  function Luminance(sample: Option<real>, min: real, max: real): (pv: byte)
    ensures sample.None? ==> pv == 0
  {
    match sample
    case None => 0
    case Some(p) =>
      if max == min then (if p > min then 255 else 0)
      else ClampToByte((p - min) * 256.0 / (max - min))
  }

  /** Alpha: 0 exactly where a mask is present and its entry is falsy (0 or `undefined`). */
  function Alpha(mask: Option<seq<byte>>, j: nat): (a: byte)
    ensures a == 0 || a == 255
    ensures mask.None? ==> a == 255
    ensures a == 0 <==> mask.Some? && (j >= |mask.value| || mask.value[j] == 0)
  {
    if mask.Some? && (j >= |mask.value| || mask.value[j] == 0) then 0 else 255
  }

  /** Euclidean division has exactly one quotient and remainder. */
  lemma DivModUnique(n: nat, d: nat, q: nat, r: nat)
    requires 0 <= r < d && n == q * d + r
    ensures n / d == q && n % d == r
  {
    var q', r' := n / d, n % d;
    assert n == q' * d + r';
    if q' > q {
      MulLe(q + 1, q', d);
      assert false;
    } else if q' < q {
      MulLe(q' + 1, q, d);
      assert false;
    }
  }

  /** Multiplying by a natural number keeps the order. */
  lemma MulLe(a: nat, b: nat, c: nat)
    requires a <= b
    ensures a * c <= b * c
  {
  }

  /** Dividing by a positive real keeps the order. */
  lemma DivLe(a: real, b: real, d: real)
    requires a <= b && d > 0.0
    ensures a / d <= b / d
  {
  }

  /**
   * The source index read for output pixel `i`: `i + floor(i / width)`.
   * It is column `i % width` of row `i / width` of a layout whose rows hold
   * `width + 1` samples, so the trailing sample of every row is skipped.
   */
  function SourceIndex(i: nat, width: nat): (j: nat)
    requires width > 0
    ensures j == (i / width) * (width + 1) + i % width
    ensures j / (width + 1) == i / width && j % (width + 1) == i % width
  {
    var q, r := i / width, i % width;
    assert i == q * width + r;
    assert i + q == q * (width + 1) + r;
    DivModUnique(i + q, width + 1, q, r);
    i + i / width
  }

  /** A grid with at least one output pixel has a positive width and height. */
  lemma NonEmptyGrid(g: DecodedGrid)
    requires PixelCount(g) > 0
    ensures g.width > 0 && g.height > 0
  {
  }

  /** Channel `c` of output pixel `i`. */
  function Channel(g: DecodedGrid, i: nat, c: nat): (b: byte)
    requires i < PixelCount(g) && c < 4
    ensures g.width > 0
    ensures c < 3 ==> b == Luminance(ReadSample(g, i), g.minValue, g.maxValue)
    ensures c == 3 ==> b == Alpha(g.mask, SourceIndex(i, g.width)) && (b == 0 || b == 255)
  {
    NonEmptyGrid(g);
    var j := SourceIndex(i, g.width);
    if c < 3 then Luminance(SampleAt(g.pixels, j), g.minValue, g.maxValue)
    else Alpha(g.mask, j)
  }

  /** The whole ImageData buffer after the normalising loop. */
  function RgbaImage(g: DecodedGrid): (image: seq<byte>)
    ensures |image| == 4 * PixelCount(g)
  {
    seq(4 * PixelCount(g), k requires 0 <= k < 4 * PixelCount(g) => Channel(g, k / 4, k % 4))
  }

  // ---------------------------------------------------------------------------
  // The normalising loop
  // ---------------------------------------------------------------------------

  /**
   * The loop that fills the ImageData bytes `data` in place, one output
   * pixel per iteration, reading source index `i + floor(i / width)`.
   */
  method FillImageData(data: array<byte>, g: DecodedGrid)
    requires data.Length == 4 * PixelCount(g)
    modifies data
    ensures data[..] == RgbaImage(g)
  {
    var width, height := g.width, g.height;
    var min, max := g.minValue, g.maxValue;
    var pixels, mask := g.pixels, g.mask;
    // with max == min the source's scale is +Infinity; 0.0 only stands in for it,
    // since ReadPixel never reads f in that case
    var f := if max != min then 256.0 / (max - min) else 0.0;
    var n := width * height;
    ghost var image := RgbaImage(g);
    var i := 0;
    while i < n
      invariant 0 <= i <= n
      invariant forall k :: 0 <= k < 4 * i ==> data[k] == image[k]
    {
      var j := i + i / width;
      var pv, alpha := ReadPixel(pixels, mask, j, min, max, f);
      PixelLayout(g, i);
      data[4 * i] := pv;
      data[4 * i + 1] := pv;
      data[4 * i + 2] := pv;
      data[4 * i + 3] := alpha;
      i := i + 1;
    }
    assert data[..] == image;
  }

  /**
   * One iteration's reads: `pv = (pixels[j] - min) * f` as the byte store
   * keeps it, and the alpha of mask entry `j`.
   */
  method ReadPixel(pixels: seq<real>, mask: Option<seq<byte>>, j: nat, min: real, max: real, f: real)
    returns (pv: byte, alpha: byte)
    requires max != min ==> f == 256.0 / (max - min)
    ensures pv == Luminance(SampleAt(pixels, j), min, max)
    ensures alpha == Alpha(mask, j)
  {
    if j >= |pixels| {
      pv := 0;
    } else if max == min {
      pv := if pixels[j] > min then 255 else 0;
    } else {
      assert (pixels[j] - min) * f == (pixels[j] - min) * 256.0 / (max - min);
      pv := ClampToByte((pixels[j] - min) * f);
    }
    alpha := if mask.Some? && (j >= |mask.value| || mask.value[j] == 0) then 0 else 255;
  }

  // ---------------------------------------------------------------------------
  // Properties of the normalised image
  // ---------------------------------------------------------------------------

  /**
   * Buffer layout: pixel `i` owns bytes `4i .. 4i+3`; bytes 0-2 carry the
   * same luminance of source sample `j`, byte 3 the alpha of mask entry `j`.
   */
  lemma PixelLayout(g: DecodedGrid, i: nat)
    requires i < PixelCount(g)
    ensures g.width > 0
    ensures var image, j := RgbaImage(g), SourceIndex(i, g.width);
      var pv := Luminance(SampleAt(g.pixels, j), g.minValue, g.maxValue);
      && image[4 * i] == pv && image[4 * i + 1] == pv && image[4 * i + 2] == pv
      && image[4 * i + 3] == Alpha(g.mask, j)
  {
    NonEmptyGrid(g);
    DivModUnique(4 * i, 4, i, 0);
    DivModUnique(4 * i + 1, 4, i, 1);
    DivModUnique(4 * i + 2, 4, i, 2);
    DivModUnique(4 * i + 3, 4, i, 3);
  }

  /** Alpha is 0 exactly when a mask is present and its entry for the read sample is falsy. */
  lemma AlphaZeroIff(g: DecodedGrid, i: nat)
    requires i < PixelCount(g)
    ensures g.width > 0
    ensures var j := SourceIndex(i, g.width);
      RgbaImage(g)[4 * i + 3] == 0 <==> g.mask.Some? && (j >= |g.mask.value| || g.mask.value[j] == 0)
    ensures RgbaImage(g)[4 * i + 3] != 0 ==> RgbaImage(g)[4 * i + 3] == 255
  {
    PixelLayout(g, i);
  }

  /** Without a mask every pixel is opaque. */
  lemma NoMaskOpaque(g: DecodedGrid)
    requires g.mask.None?
    ensures forall i :: 0 <= i < PixelCount(g) ==> RgbaImage(g)[4 * i + 3] == 255
  {
    forall i | 0 <= i < PixelCount(g)
      ensures RgbaImage(g)[4 * i + 3] == 255
    {
      AlphaZeroIff(g, i);
    }
  }

  /** A sample equal to `min` is stored as 0. */
  lemma LuminanceAtMin(min: real, max: real)
    ensures Luminance(Some(min), min, max) == 0
  {
    if max != min {
      assert min - min == 0.0;
      assert (min - min) * 256.0 == 0.0;
      assert 0.0 / (max - min) == 0.0;
    }
  }

  /** A sample equal to `max` computes to 256, which the byte store clamps to 255. */
  lemma LuminanceAtMax(min: real, max: real)
    requires max > min
    ensures Luminance(Some(max), min, max) == 255
  {
    assert (max - min) * 256.0 / (max - min) == 256.0;
  }

  /** Samples outside [min, max] are clamped to the ends of the byte range. */
  lemma LuminanceClamped(p: real, min: real, max: real)
    requires max > min
    ensures p <= min ==> Luminance(Some(p), min, max) == 0
    ensures p >= max ==> Luminance(Some(p), min, max) == 255
  {
    var v := (p - min) * 256.0 / (max - min);
    if p <= min {
      assert (p - min) * 256.0 <= 0.0;
      assert v <= 0.0;
    }
    if p >= max {
      assert (p - min) * 256.0 >= (max - min) * 256.0;
      DivLe((max - min) * 256.0, (p - min) * 256.0, max - min);
      assert (max - min) * 256.0 / (max - min) == 256.0;
    }
  }

  /** For a proper range, a larger sample never gives a darker pixel. */
  lemma LuminanceMonotone(p: real, q: real, min: real, max: real)
    requires max > min && p <= q
    ensures Luminance(Some(p), min, max) <= Luminance(Some(q), min, max)
  {
    var d := max - min;
    assert (p - min) * 256.0 <= (q - min) * 256.0;
    DivLe((p - min) * 256.0, (q - min) * 256.0, d);
    ClampToByteMonotone((p - min) * 256.0 / d, (q - min) * 256.0 / d);
  }

  /**
   * Row-skip reads: consecutive output pixels read strictly increasing
   * source indices, and no read lands on the padding sample of a row.
   */
  lemma SourceIndexSkipsPadding(i: nat, width: nat)
    requires width > 0
    ensures SourceIndex(i, width) % (width + 1) != width
    ensures SourceIndex(i, width) < SourceIndex(i + 1, width)
  {
    var q, r := i / width, i % width;
    if r + 1 < width {
      DivModUnique(i + 1, width, q, r + 1);
    } else {
      DivModUnique(i + 1, width, q + 1, 0);
    }
  }

  /**
   * The last output pixel reads source index `width*height + height - 2`,
   * the largest one read, so `pixels` must hold `width*height + height - 1`
   * samples for every read to land inside the array.
   */
  lemma {:induction false} ReadsWithinSamplesNeeded(g: DecodedGrid, i: nat)
    requires i < PixelCount(g)
    ensures g.width > 0
    ensures SourceIndex(i, g.width) < SamplesNeeded(g)
    ensures i == PixelCount(g) - 1 ==> SourceIndex(i, g.width) == SamplesNeeded(g) - 1
  {
    var w, h := g.width, g.height;
    assert w > 0 && h > 0;
    var q, r := i / w, i % w;
    RowBelowHeight(i, w, h);
    MulLe(q, h - 1, w + 1);
    PaddedEnd(w, h);
    if i == w * h - 1 {
      PaddedEnd(w, h);
      DivModUnique(i, w, h - 1, w - 1);
    }
  }

  /** An output index below `width * height` lies in a row below `height`. */
  lemma RowBelowHeight(i: nat, w: nat, h: nat)
    requires w > 0 && i < w * h
    ensures i / w < h
  {
    if i / w >= h {
      MulLe(h, i / w, w);
      assert false;
    }
  }

  /** Where the last row of the padded layout ends. */
  lemma PaddedEnd(w: nat, h: nat)
    requires w > 0 && h > 0
    ensures (h - 1) * (w + 1) + (w - 1) == w * h + h - 2
    ensures w * h - 1 == (h - 1) * w + (w - 1)
  {
  }

  /** With enough samples, no read is `undefined`. */
  lemma EnoughSamplesAllDefined(g: DecodedGrid)
    requires |g.pixels| >= SamplesNeeded(g)
    ensures forall i :: 0 <= i < PixelCount(g) ==>
      g.width > 0 && SampleAt(g.pixels, SourceIndex(i, g.width)).Some?
  {
    forall i | 0 <= i < PixelCount(g)
      ensures g.width > 0 && SampleAt(g.pixels, SourceIndex(i, g.width)).Some?
    {
      ReadsWithinSamplesNeeded(g, i);
    }
  }

  /** The sample output pixel `i` reads: `None` past the end of the sample array. */
  function ReadSample(g: DecodedGrid, i: nat): (s: Option<real>)
    requires i < PixelCount(g)
    ensures g.width > 0
    ensures s.Some? <==> SourceIndex(i, g.width) < |g.pixels|
  {
    NonEmptyGrid(g);
    SampleAt(g.pixels, SourceIndex(i, g.width))
  }

  /**
   * Degenerate statistics, `max == min`: the infinite scale makes every
   * luminance byte 0 or 255, never a NaN or an intermediate value.
   */
  lemma DegenerateRangeBinary(g: DecodedGrid)
    requires g.maxValue == g.minValue
    ensures forall k :: 0 <= k < |RgbaImage(g)| && k % 4 < 3 ==> RgbaImage(g)[k] == 0 || RgbaImage(g)[k] == 255
  {
    forall k | 0 <= k < |RgbaImage(g)| && k % 4 < 3
      ensures RgbaImage(g)[k] == 0 || RgbaImage(g)[k] == 255
    {
      PixelLayout(g, k / 4);
    }
  }

  /** With `max == min`, pixel `i`'s luminance is 0 exactly when its sample is undefined or at most `min`. */
  lemma DegeneratePixel(g: DecodedGrid, i: nat)
    requires g.maxValue == g.minValue && i < PixelCount(g)
    ensures var image, s := RgbaImage(g), ReadSample(g, i);
      && image[4 * i + 1] == image[4 * i] && image[4 * i + 2] == image[4 * i]
      && (image[4 * i] == 0 <==> s.None? || s.value <= g.minValue)
  {
    PixelLayout(g, i);
  }

  /** With `max == min`, read samples no larger than `min` give an all-zero luminance. */
  lemma DegenerateRangeZeroIfLow(g: DecodedGrid)
    requires g.maxValue == g.minValue
    requires forall i :: 0 <= i < PixelCount(g) && ReadSample(g, i).Some? ==> ReadSample(g, i).value <= g.minValue
    ensures forall k :: 0 <= k < |RgbaImage(g)| && k % 4 < 3 ==> RgbaImage(g)[k] == 0
  {
    forall k | 0 <= k < |RgbaImage(g)| && k % 4 < 3
      ensures RgbaImage(g)[k] == 0
    {
      var i := k / 4;
      DegeneratePixel(g, i);
      assert k == 4 * i || k == 4 * i + 1 || k == 4 * i + 2;
    }
  }

  /** With `max == min`, an all-zero luminance means no read sample exceeds `min`. */
  lemma DegenerateRangeLowIfZero(g: DecodedGrid)
    requires g.maxValue == g.minValue
    requires forall k :: 0 <= k < |RgbaImage(g)| && k % 4 < 3 ==> RgbaImage(g)[k] == 0
    ensures forall i :: 0 <= i < PixelCount(g) && ReadSample(g, i).Some? ==> ReadSample(g, i).value <= g.minValue
  {
    forall i | 0 <= i < PixelCount(g) && ReadSample(g, i).Some?
      ensures ReadSample(g, i).value <= g.minValue
    {
      var k := 4 * i;
      assert k < |RgbaImage(g)| && k % 4 == 0;
      assert RgbaImage(g)[k] == 0;
      DegeneratePixel(g, i);
    }
  }

  /**
   * With `max == min` the luminance bytes are all 0, a uniform image,
   * exactly when no sample that is read exceeds `min`.
   */
  lemma DegenerateRangeUniform(g: DecodedGrid)
    requires g.maxValue == g.minValue
    ensures (forall k :: 0 <= k < |RgbaImage(g)| && k % 4 < 3 ==> RgbaImage(g)[k] == 0)
        <==> (forall i :: 0 <= i < PixelCount(g) && ReadSample(g, i).Some? ==> ReadSample(g, i).value <= g.minValue)
  {
    if forall i :: 0 <= i < PixelCount(g) && ReadSample(g, i).Some? ==> ReadSample(g, i).value <= g.minValue {
      DegenerateRangeZeroIfLow(g);
    }
    if forall k :: 0 <= k < |RgbaImage(g)| && k % 4 < 3 ==> RgbaImage(g)[k] == 0 {
      DegenerateRangeLowIfZero(g);
    }
  }

  /** For width 4 and height 2 the reads are [0, 1, 2, 3, 5, 6, 7, 8]. */
  lemma RowSkipExample()
    ensures seq(8, i requires 0 <= i < 8 => SourceIndex(i, 4)) == [0, 1, 2, 3, 5, 6, 7, 8]
  {
  }

  /**
   * A 2x2 grid with samples [10, 20, 21, 30, 40] (21 is row padding), range
   * [10, 40] and no mask gives luminances 0, 85, 171 and 255, all opaque.
   */
  lemma TwoByTwoExample()
    ensures RgbaImage(DecodedGrid(2, 2, 10.0, 40.0, [10.0, 20.0, 21.0, 30.0, 40.0], None))
         == [0, 0, 0, 255, 85, 85, 85, 255, 171, 171, 171, 255, 255, 255, 255, 255]
  {
    var g := DecodedGrid(2, 2, 10.0, 40.0, [10.0, 20.0, 21.0, 30.0, 40.0], None);
    assert SourceIndex(0, 2) == 0 && SourceIndex(1, 2) == 1;
    assert SourceIndex(2, 2) == 3 && SourceIndex(3, 2) == 4;
    assert (20.0 - 10.0) * 256.0 / (40.0 - 10.0) == 2560.0 / 30.0;
    assert ClampToByte(2560.0 / 30.0) == 85;
    assert (30.0 - 10.0) * 256.0 / (40.0 - 10.0) == 5120.0 / 30.0;
    assert ClampToByte(5120.0 / 30.0) == 171;
    LuminanceAtMin(10.0, 40.0);
    LuminanceAtMax(10.0, 40.0);
  }
}
