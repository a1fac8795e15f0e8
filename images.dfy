/** The two checks on the loaded images: their pixel format (Main.kt:15-16) and, for the
    watermark, which transparency strategy the run uses (Main.kt:64-74). */
module Images {
  import opened Errors
  import opened Text
  import opened Pixels
  import opened Parameters

  /** `java.awt.Transparency`: OPAQUE, BITMASK or TRANSLUCENT. */
  datatype TransparencyKind = Opaque | Bitmask | Translucent

  /** What the program asks of a decoded image besides its pixels: the number of colour
      components and the bits per pixel of its colour model, and its transparency. */
  datatype ImageInfo = ImageInfo(colorComponents: int, pixelSize: int, transparency: TransparencyKind)

  /** `createBufferedImage`'s format checks (Main.kt:15-16): an image is kept exactly when it
      has 3 colour components and 24 or 32 bits per pixel; the component count is checked
      first. */
  function ValidateImage(info: ImageInfo, role: Role): (r: Result<ImageInfo>)
    ensures r.Ok? <==> info.colorComponents == 3 && info.pixelSize in {24, 32}
    ensures r.Ok? ==> r.value == info
    ensures info.colorComponents != 3 ==> r == Err(InvalidColorComponents(role))
    ensures info.colorComponents == 3 && info.pixelSize !in {24, 32} ==> r == Err(InvalidBitsPerPixel(role))
  {
    if info.colorComponents != 3 then Err(InvalidColorComponents(role))
    else if info.pixelSize !in [24, 32] then Err(InvalidBitsPerPixel(role))
    else Ok(info)
  }

  /** The transparency strategy (Main.kt:64-74), from the watermark's transparency and three
      replies: whether to use the alpha channel (asked only of a translucent watermark), whether
      to set a key colour (asked only otherwise), and the key colour (asked only after "yes").
      Alpha mode needs a translucent watermark and a reply that lowercases to "yes"; a key colour
      needs any other watermark, exactly "yes", and a valid colour, whose errors it passes on.
      The two are never active together. */
  method ResolveTransparency(kind: TransparencyKind, useAlpha: string, setKey: string, keyColor: string)
    returns (r: Result<Mode>)
    ensures r.Ok? && r.value.AlphaChannel? <==> kind == Translucent && Lower(useAlpha) == "yes"
    ensures r.Ok? && r.value.ColorKey? <==> kind != Translucent && setKey == "yes" && ParseColor(keyColor).Ok?
    ensures r.Ok? && r.value.ColorKey? ==> ParseColor(keyColor) == Ok(r.value.key)
    ensures r.Err? <==> kind != Translucent && setKey == "yes" && ParseColor(keyColor).Err?
    ensures r.Err? ==> r.error == ParseColor(keyColor).error
  {
    var transparency := kind;
    var key: Option<Rgb> := None;
    if transparency == Translucent {
      transparency := if Lower(useAlpha) == "yes" then Translucent else Opaque;
    } else if setKey == "yes" {
      var color := ParseColor(keyColor);
      if color.Err? {
        return Err(color.error);
      }
      key := Some(color.value);
    }
    if transparency == Translucent {
      r := Ok(AlphaChannel);
    } else if key.Some? {
      r := Ok(ColorKey(key.value));
    } else {
      r := Ok(NoTransparency);
    }
  }
}
