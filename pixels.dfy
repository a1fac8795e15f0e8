/** Pixels and the per-pixel blend of `addWatermark` (Main.kt:33-46). */
module Pixels {
  import opened Errors

  /** One colour channel; `java.awt.Color` rejects any value outside 0..255. */
  type Channel = c: int | 0 <= c <= 255

  /** The watermark's weight in the blend, checked to lie in 0..100 before any blending. */
  type Percent = p: int | 0 <= p <= 100

  /** An opaque colour: a pixel of the base image or of the output image. */
  datatype Rgb = Rgb(red: Channel, green: Channel, blue: Channel)

  /** A watermark pixel as stored, with its own alpha. */
  datatype Argb = Argb(alpha: Channel, rgb: Rgb)

  /** The transparency strategy of one run: the watermark's alpha channel, a colour key, or
      neither. In the source it is the pair (watermark transparency, nullable key colour). */
  datatype Mode = AlphaChannel | ColorKey(key: Rgb) | NoTransparency

  /** `Color(watermark.getRGB(..), hasAlpha)` with `hasAlpha` true only in alpha mode: in
      every other mode the pixel is read as fully opaque. */
  function ReadWatermark(px: Argb, mode: Mode): Argb {
    if mode.AlphaChannel? then px else Argb(255, px.rgb)
  }

  function Min(a: int, b: int): int { if a <= b then a else b }
  function Max(a: int, b: int): int { if a <= b then b else a }

  /** One blended channel, `(p * w + (100 - p) * b) / 100` (Main.kt:41-43). Kotlin's `/`
      truncates toward zero; the dividend is never negative, so Dafny's `/` agrees. The result
      lies between the two inputs, so it is a valid channel. */
  function Mix(p: Percent, w: Channel, b: Channel): (c: Channel)
    ensures Min(w, b) <= c <= Max(w, b)
  {
    MixBounds(p, w, b);
    (p * w + (100 - p) * b) / 100
  }

  lemma MixBounds(p: Percent, w: Channel, b: Channel)
    ensures 100 * Min(w, b) <= p * w + (100 - p) * b <= 100 * Max(w, b)
  {
  }

  /** Channel-wise mix of a watermark colour into a base colour. */
  function MixRgb(p: Percent, w: Rgb, i: Rgb): Rgb {
    Rgb(Mix(p, w.red, i.red), Mix(p, w.green, i.green), Mix(p, w.blue, i.blue))
  }

  predicate ChannelBetween(c: int, a: int, b: int) {
    Min(a, b) <= c <= Max(a, b)
  }

  /** Every channel of `c` lies between the matching channels of `a` and `b`. */
  predicate Between(c: Rgb, a: Rgb, b: Rgb) {
    ChannelBetween(c.red, a.red, b.red)
    && ChannelBetween(c.green, a.green, b.green)
    && ChannelBetween(c.blue, a.blue, b.blue)
  }

  /** A pixel with alpha strictly between 0 and 255: the one kind `addWatermark` refuses. */
  predicate PartiallyTransparent(w: Argb) {
    0 < w.alpha < 255
  }

  /** The `when` that chooses the output pixel (Main.kt:38-46). `i` is the base colour, `w` the
      watermark pixel as read (None outside the watermark's footprint). The base colour is kept
      when there is no watermark pixel, when it is fully transparent, or when it equals the key
      colour (a `Color` built from three channels, hence with alpha 255); a fully opaque pixel
      is mixed in; any other alpha is an error. */
  function Blend(i: Rgb, w: Option<Argb>, mode: Mode, p: Percent): (r: Result<Rgb>)
    ensures r.Err? <==> w.Some? && PartiallyTransparent(w.value)
    ensures r.Err? ==> r.error == InvalidWatermarkImage
    ensures r.Ok? && w.Some? ==> Between(r.value, w.value.rgb, i)
    ensures w.None? ==> r == Ok(i)
  {
    if w.None? || w.value.alpha == 0 || (mode.ColorKey? && w.value == Argb(255, mode.key)) then Ok(i)
    else if w.value.alpha == 255 then Ok(MixRgb(p, w.value.rgb, i))
    else Err(InvalidWatermarkImage)
  }

  /** Skip rule: a watermark pixel that is fully transparent in alpha mode, or that equals the
      key colour in colour-key mode, leaves every base colour as it is. */
  lemma SkipKeepsBase(i: Rgb, px: Argb, mode: Mode, p: Percent)
    requires (mode.AlphaChannel? && px.alpha == 0) || (mode.ColorKey? && px.rgb == mode.key)
    ensures Blend(i, Some(ReadWatermark(px, mode)), mode, p) == Ok(i)
  {
  }

  /** A watermark pixel that is opaque as read and is not the key colour is mixed in with the
      truncating weighted average; with weight 0 the base colour stays, with weight 100 the
      watermark colour replaces it. */
  lemma {:induction false} OpaqueIsMixed(i: Rgb, px: Argb, mode: Mode, p: Percent)
    requires ReadWatermark(px, mode).alpha == 255
    requires !(mode.ColorKey? && px.rgb == mode.key)
    ensures Blend(i, Some(ReadWatermark(px, mode)), mode, p) == Ok(MixRgb(p, px.rgb, i))
    ensures p == 0 ==> Blend(i, Some(ReadWatermark(px, mode)), mode, p) == Ok(i)
    ensures p == 100 ==> Blend(i, Some(ReadWatermark(px, mode)), mode, p) == Ok(px.rgb)
  {
    if p == 0 || p == 100 {
      MixWeights(i.red, px.rgb.red);
      MixWeights(i.green, px.rgb.green);
      MixWeights(i.blue, px.rgb.blue);
    }
  }

  /** Weight 0 keeps the base channel and weight 100 gives the watermark channel. */
  lemma MixWeights(b: Channel, w: Channel)
    ensures Mix(0, w, b) == b && Mix(100, w, b) == w
  {
  }

  /** Equal weights on black and white give 127: the half is truncated, not rounded. */
  lemma HalfOfWhiteOnBlack()
    ensures Mix(50, 255, 0) == 127
    ensures MixRgb(50, Rgb(255, 255, 255), Rgb(0, 0, 0)) == Rgb(127, 127, 127)
  {
  }

  /** Whether a watermark pixel is refused depends on the pixel and the mode only: partially
      transparent pixels are refused in alpha mode, for every base colour and weight, and
      nothing is refused in any other mode. */
  lemma {:induction false} RefusedIffPartialAlpha(i: Rgb, px: Argb, mode: Mode, p: Percent)
    ensures Blend(i, Some(ReadWatermark(px, mode)), mode, p).Err?
        <==> mode.AlphaChannel? && PartiallyTransparent(px)
  {
    if !mode.AlphaChannel? {
      assert ReadWatermark(px, mode).alpha == 255;
    }
  }
}
