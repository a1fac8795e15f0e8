/** The whole run of the program (Main.kt:53-123): check both images, resolve transparency,
    read the percentage, the placement method and, for single placement, the position, blend,
    and check the output file name. The first failing step ends the run with its error and
    nothing is written. File reading, prompting and writing are outside the model: the images
    arrive decoded and the replies as strings, and the result is what would be written. */
module Watermark {
  import opened Errors
  import opened Text
  import opened Pixels
  import opened Compositor
  import opened Parameters
  import opened Images

  /** The user's replies, in the order they are asked; a reply the run never asks for is
      ignored. */
  datatype Replies = Replies(
    useAlpha: string,
    setKey: string,
    keyColor: string,
    percentage: string,
    positionMethod: string,
    position: string,
    fileName: string)

  datatype Placement = Single(pos: Position) | Grid

  /** The parameters one run blends with. */
  datatype Settings = Settings(mode: Mode, percentage: Percent, placement: Placement)

  /** What a successful run hands to `ImageIO.write` (Main.kt:117), with the settings it used. */
  datatype Saved = Saved(image: array2<Rgb>, settings: Settings, fileName: string, format: string)

  /** The error the run stops with, in the order `main` performs its steps (Main.kt:56-113), or
      None when every step succeeds. The watermark's size and whether it has a partially
      transparent pixel are all it needs of the images; the blend refuses a pixel only in alpha
      mode (Main.kt:45), and only after the position check. */
  function FirstError(baseInfo: ImageInfo, wmInfo: ImageInfo, baseWidth: int, baseHeight: int,
                      wmWidth: int, wmHeight: int, partialAlpha: bool, replies: Replies): Option<Error>
  {
    var baseChecked, wmChecked := ValidateImage(baseInfo, BaseImage), ValidateImage(wmInfo, WatermarkImage);
    var keyAsked := wmInfo.transparency != Translucent && replies.setKey == "yes";
    var alphaMode := wmInfo.transparency == Translucent && Lower(replies.useAlpha) == "yes";
    var position := ParsePosition(replies.position, baseWidth - wmWidth, baseHeight - wmHeight);
    if baseChecked.Err? then Some(baseChecked.error)
    else if wmChecked.Err? then Some(wmChecked.error)
    else if baseWidth < wmWidth || baseHeight < wmHeight then Some(InvalidWatermarkDimensions)
    else if keyAsked && ParseColor(replies.keyColor).Err? then Some(ParseColor(replies.keyColor).error)
    else if ParsePercentage(replies.percentage).Err? then Some(ParsePercentage(replies.percentage).error)
    else if ParseMethod(replies.positionMethod).Err? then Some(InvalidPositionMethod)
    else if replies.positionMethod == "single" && position.Err? then Some(position.error)
    else if alphaMode && partialAlpha then Some(InvalidWatermarkImage)
    else if ParseFileName(replies.fileName).Err? then Some(InvalidFileName)
    else None
  }

  method Run(baseInfo: ImageInfo, base: array2<Rgb>, wmInfo: ImageInfo, wm: array2<Argb>, replies: Replies)
    returns (r: Result<Saved>)
    requires base.Length0 > 0 && base.Length1 > 0 && wm.Length0 > 0 && wm.Length1 > 0
    // the format checks, base image first, then the dimension check, before anything else
    ensures ValidateImage(baseInfo, BaseImage).Err? ==> r == Err(ValidateImage(baseInfo, BaseImage).error)
    ensures ValidateImage(baseInfo, BaseImage).Ok? && ValidateImage(wmInfo, WatermarkImage).Err? ==>
      r == Err(ValidateImage(wmInfo, WatermarkImage).error)
    ensures (ValidateImage(baseInfo, BaseImage).Ok? && ValidateImage(wmInfo, WatermarkImage).Ok?
             && (base.Length0 < wm.Length0 || base.Length1 < wm.Length1)) ==> r == Err(InvalidWatermarkDimensions)
    // every later step, too, fails with its own error, and the run succeeds when none fails
    ensures (var e := FirstError(baseInfo, wmInfo, base.Length0, base.Length1, wm.Length0, wm.Length1,
                                 HasPartialAlpha(wm), replies);
             (r.Err? <==> e.Some?) && (r.Err? ==> r.error == e.value))
    // a partially transparent pixel is refused only in alpha mode
    ensures r == Err(InvalidWatermarkImage) ==>
      wmInfo.transparency == Translucent && Lower(replies.useAlpha) == "yes" && HasPartialAlpha(wm)
    // what a successful run used
    ensures r.Ok? ==> (ValidateImage(baseInfo, BaseImage).Ok? && ValidateImage(wmInfo, WatermarkImage).Ok?
                       && wm.Length0 <= base.Length0 && wm.Length1 <= base.Length1)
    ensures r.Ok? ==> (r.value.settings.mode.AlphaChannel? <==>
      wmInfo.transparency == Translucent && Lower(replies.useAlpha) == "yes")
    ensures r.Ok? ==> (r.value.settings.mode.ColorKey? <==>
      wmInfo.transparency != Translucent && replies.setKey == "yes")
    ensures r.Ok? && r.value.settings.mode.ColorKey? ==>
      wmInfo.transparency != Translucent && replies.setKey == "yes"
      && ParseColor(replies.keyColor) == Ok(r.value.settings.mode.key)
    ensures r.Ok? ==> ParsePercentage(replies.percentage) == Ok(r.value.settings.percentage)
    ensures r.Ok? ==> (r.value.settings.placement.Grid? <==> replies.positionMethod == "grid")
    ensures r.Ok? && r.value.settings.placement.Single? ==> (replies.positionMethod == "single"
      && ParsePosition(replies.position, base.Length0 - wm.Length0, base.Length1 - wm.Length1)
         == Ok(r.value.settings.placement.pos))
    ensures r.Ok? ==> r.value.fileName == replies.fileName && ParseFileName(replies.fileName) == Ok(r.value.format)
    // what a successful run produced
    ensures r.Ok? ==> (fresh(r.value.image)
                       && r.value.image.Length0 == base.Length0 && r.value.image.Length1 == base.Length1)
    ensures r.Ok? && r.value.settings.placement.Single? ==>
      forall x, y :: 0 <= x < base.Length0 && 0 <= y < base.Length1 ==>
        Composite(base[x, y], wm, r.value.settings.mode, r.value.settings.percentage,
                  r.value.settings.placement.pos, x, y) == Ok(r.value.image[x, y])
    ensures r.Ok? && r.value.settings.placement.Grid? ==>
      forall x, y :: 0 <= x < base.Length0 && 0 <= y < base.Length1 ==>
        GridPixel(base[x, y], wm, r.value.settings.mode, r.value.settings.percentage, x, y)
        == Ok(r.value.image[x, y])
    ensures r.Ok? ==> !(r.value.settings.mode.AlphaChannel? && HasPartialAlpha(wm))
  {
    var baseChecked := ValidateImage(baseInfo, BaseImage);
    if baseChecked.Err? {
      return Err(baseChecked.error);
    }
    var wmChecked := ValidateImage(wmInfo, WatermarkImage);
    if wmChecked.Err? {
      return Err(wmChecked.error);
    }
    if base.Length0 < wm.Length0 || base.Length1 < wm.Length1 {
      return Err(InvalidWatermarkDimensions);
    }

    var mode := ResolveTransparency(wmInfo.transparency, replies.useAlpha, replies.setKey, replies.keyColor);
    if mode.Err? {
      return Err(mode.error);
    }
    var percentage := ParsePercentage(replies.percentage);
    if percentage.Err? {
      return Err(percentage.error);
    }
    var positionMethod := ParseMethod(replies.positionMethod);
    if positionMethod.Err? {
      return Err(positionMethod.error);
    }

    var output: Result<array2<Rgb>>;
    var placement: Placement;
    if positionMethod.value == SingleMethod {
      var maxX, maxY := base.Length0 - wm.Length0, base.Length1 - wm.Length1;
      var pos := ParsePosition(replies.position, maxX, maxY);
      if pos.Err? {
        return Err(pos.error);
      }
      placement := Single(pos.value);
      output := AddWatermark(base, wm, mode.value, percentage.value, pos.value);
      SingleRefusedIffPartialAlpha(base, wm, mode.value, percentage.value, pos.value);
    } else {
      placement := Grid;
      output := GridPlacement(base, wm, mode.value, percentage.value);
      GridRefusedIffPartialAlpha(base, wm, mode.value, percentage.value);
    }
    if output.Err? {
      return Err(output.error);
    }

    var format := ParseFileName(replies.fileName);
    if format.Err? {
      return Err(format.error);
    }
    return Ok(Saved(output.value, Settings(mode.value, percentage.value, placement), replies.fileName, format.value));
  }
}
