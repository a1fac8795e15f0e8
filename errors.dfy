/** The error kinds the watermark program raises, and the result types its checks return.
    Every error aborts the whole run; only the kind is modelled, not the message text. */
module Errors {

  /** Which of the two loaded images a format error is about (the `type` argument of
      `createBufferedImage`, "image" or "watermark"). */
  datatype Role = BaseImage | WatermarkImage

  datatype Error =
    | InvalidColorComponents(role: Role)   // InvalidImageColorComponentsException
    | InvalidBitsPerPixel(role: Role)      // InvalidImageBitsPerPixelException
    | InvalidWatermarkDimensions           // InvalidWatermarkImageDimensionsException
    | InvalidTransparencyColor             // InvalidTransparencyColorException
    | NumberFormat                         // NumberFormatException, from toInt or a null toIntOrNull
    | InvalidTransparencyPercentage        // InvalidTransparencyPercentageException
    | InvalidPositionMethod                // InvalidWatermarkPositionMethodException
    | InvalidPositionInput                 // InvalidWatermarkPositionInputException
    | InvalidPosition                      // InvalidWatermarkPositionException
    | InvalidWatermarkImage                // InvalidWatermarkImageException: a partially transparent pixel
    | InvalidFileName                      // InvalidFileNameException

  datatype Option<+T> = None | Some(value: T)

  datatype Result<+T> = Ok(value: T) | Err(error: Error)
}
